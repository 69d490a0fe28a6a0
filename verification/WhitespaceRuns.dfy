// Runs of the machine over whitespace.
module WhitespaceRuns {
  import opened Base
  import opened Events
  import opened Machine
  import opened Passages

  function AfterWhitespace(cfg: Config, st: St, space: Bytes): St {
    if space == [] then st
    else WhitespaceStep(cfg, AfterWhitespace(cfg, st, space[..|space| - 1]), space[|space| - 1])
  }

  /** `st` with the position of `after`, having been told of `space`. */
  function Touched(cfg: Config, st: St, after: St, space: Bytes): St {
    st.(at := after.at, afterCr := after.afterCr, log := if cfg.needsWhitespace then JoinWhitespace(st.log, space) else st.log)
  }

  /** Only the position and the log are touched. */
  lemma {:induction false} AfterWhitespaceKeeps(cfg: Config, st: St, space: Bytes)
    ensures AfterWhitespace(cfg, st, space) == Touched(cfg, st, AfterWhitespace(cfg, st, space), space)
  {
    if space != [] {
      hide WhitespaceStep, Touched;
      var init, last := space[..|space| - 1], space[|space| - 1];
      var before := AfterWhitespace(cfg, st, init);
      AfterWhitespaceKeeps(cfg, st, init);
      StepTouches(cfg, before, last);
      TouchedTwice(cfg, st, before, WhitespaceStep(cfg, before, last), init, [last]);
      assert init + [last] == space;
    }
  }

  lemma StepTouches(cfg: Config, st: St, b: Byte)
    ensures WhitespaceStep(cfg, st, b) == Touched(cfg, st, WhitespaceStep(cfg, st, b), [b])
  {
    hide Join;
  }

  lemma TouchedTwice(cfg: Config, st: St, mid: St, after: St, a: Bytes, b: Bytes)
    requires mid == Touched(cfg, st, mid, a) && after == Touched(cfg, mid, after, b)
    ensures after == Touched(cfg, st, after, a + b)
  {
    hide JoinWhitespace;
    JoinWhitespaceTwice(st.log, a, b);
  }

  lemma {:induction false} RunWhitespace(cfg: Config, st: St, space: Bytes, rest: Bytes)
    requires st.mode.Plain? && AllWhitespace(space)
    ensures Leads(cfg, st, space + rest, AfterWhitespace(cfg, st, space), rest)
    ensures AfterWhitespace(cfg, st, space).mode.Plain?
    decreases |space|
  {
    if space == [] {
      assert space + rest == rest;
      LeadsNowhere(cfg, st, rest);
    } else {
      hide Leads;
      var init, last := space[..|space| - 1], space[|space| - 1];
      RunWhitespace(cfg, st, init, [last] + rest);
      Assoc(init, [last], rest);
      assert init + [last] == space;
      var before := AfterWhitespace(cfg, st, init);
      assert ([last] + rest)[1..] == rest;
      LeadsOne(cfg, before, [last] + rest, WhitespaceStep(cfg, before, last), 1);
      LeadsOn(cfg, st, space + rest, before, [last] + rest, WhitespaceStep(cfg, before, last), rest);
    }
  }

  lemma {:induction false} AfterWhitespaceConcat(cfg: Config, st: St, a: Bytes, b: Bytes)
    ensures AfterWhitespace(cfg, st, a + b) == AfterWhitespace(cfg, AfterWhitespace(cfg, st, a), b)
    decreases |b|
  {
    if b == [] {
      assert a + b == a;
    } else {
      var init := b[..|b| - 1];
      AfterWhitespaceConcat(cfg, st, a, init);
      assert (a + b)[..|a + b| - 1] == a + init;
    }
  }
}
