// The stretches of a run: from one state and what is left to a later state and
// what is left then, unit by unit.
module Passages {
  import opened Base
  import opened Machine
  import opened Invariants
  import Chunks

  /** The machine in state `st` on `s` comes past state `next` on `rest`. A CR is
      forgotten as soon as it is seen that no LF comes next. */
  ghost predicate Leads(cfg: Config, st: St, s: Bytes, next: St, rest: Bytes)
    decreases |s|, st.mode.InNumber?, st.afterCr
  {
    || (st == next && s == rest)
    || (s != [] && Unit(cfg, st, s).Go? && Leads(cfg, Unit(cfg, st, s).st, s[Unit(cfg, st, s).n..], next, rest))
    || (Forgets(st, s) && Leads(cfg, st.(afterCr := false), s, next, rest))
  }

  predicate Forgets(st: St, s: Bytes) {
    s != [] && st.afterCr && st.mode.Plain? && !IsWhitespace(s[0])
  }

  lemma ForgetsSafely(cfg: Config, st: St, s: Bytes)
    requires Forgets(st, s)
    ensures Unit(cfg, st, s) == Unit(cfg, st.(afterCr := false), s) && Run(cfg, st, s) == Run(cfg, st.(afterCr := false), s)
  {
  }

  lemma LeadsNowhere(cfg: Config, st: St, s: Bytes)
    ensures Leads(cfg, st, s, st, s)
  {
  }

  lemma LeadsOne(cfg: Config, st: St, s: Bytes, next: St, n: nat)
    requires s != [] && Unit(cfg, st, s) == Go(next, n)
    ensures n <= |s| && Leads(cfg, st, s, next, s[n..])
  {
    hide Unit;
    LeadsNowhere(cfg, next, s[n..]);
  }

  lemma LeadsForgetting(cfg: Config, st: St, s: Bytes)
    requires s != [] && st.mode.Plain? && !IsWhitespace(s[0])
    ensures Leads(cfg, st, s, st.(afterCr := false), s)
  {
    hide Unit;
    LeadsNowhere(cfg, st.(afterCr := false), s);
    assert !st.afterCr ==> st.(afterCr := false) == st;
  }

  lemma {:induction false} LeadsOn(cfg: Config, a: St, s: Bytes, b: St, t: Bytes, c: St, u: Bytes)
    requires Leads(cfg, a, s, b, t) && Leads(cfg, b, t, c, u)
    ensures Leads(cfg, a, s, c, u)
    decreases |s|, a.mode.InNumber?, a.afterCr
  {
    hide Unit;
    if a == b && s == t {
    } else if s != [] && Unit(cfg, a, s).Go? && Leads(cfg, Unit(cfg, a, s).st, s[Unit(cfg, a, s).n..], b, t) {
      LeadsOn(cfg, Unit(cfg, a, s).st, s[Unit(cfg, a, s).n..], b, t, c, u);
    } else {
      LeadsOn(cfg, a.(afterCr := false), s, b, t, c, u);
    }
  }

  /** What comes past goes on the same way. */
  lemma {:induction false} LeadsToSameRun(cfg: Config, a: St, s: Bytes, b: St, t: Bytes)
    requires Leads(cfg, a, s, b, t)
    ensures Run(cfg, a, s) == Run(cfg, b, t)
    decreases |s|, a.mode.InNumber?, a.afterCr
  {
    hide Unit;
    if a == b && s == t {
    } else if s != [] && Unit(cfg, a, s).Go? && Leads(cfg, Unit(cfg, a, s).st, s[Unit(cfg, a, s).n..], b, t) {
      LeadsToSameRun(cfg, Unit(cfg, a, s).st, s[Unit(cfg, a, s).n..], b, t);
    } else {
      ForgetsSafely(cfg, a, s);
      LeadsToSameRun(cfg, a.(afterCr := false), s, b, t);
    }
  }

  /** More bytes do not change what has been passed. */
  lemma {:induction false} LeadsWithMore(cfg: Config, a: St, s: Bytes, b: St, t: Bytes, more: Bytes)
    requires Leads(cfg, a, s, b, t)
    ensures Leads(cfg, a, s + more, b, t + more)
    decreases |s|, a.mode.InNumber?, a.afterCr
  {
    hide Unit;
    if a == b && s == t {
    } else if s != [] && Unit(cfg, a, s).Go? && Leads(cfg, Unit(cfg, a, s).st, s[Unit(cfg, a, s).n..], b, t) {
      var n := Unit(cfg, a, s).n;
      Chunks.UnitStable(cfg, a, s, more);
      Within(s, more, n);
      LeadsWithMore(cfg, Unit(cfg, a, s).st, s[n..], b, t, more);
    } else {
      LeadsWithMore(cfg, a.(afterCr := false), s, b, t, more);
    }
  }

  lemma RestOfRest(s: Bytes, n: nat, k: nat)
    requires n <= |s| && k <= |s| - n
    ensures s[n..][|s[n..]| - k..] == s[|s| - k..]
  {
  }

  lemma ForgetsCr(a: St, s: Bytes)
    ensures Forgets(a, s) ==> a.afterCr
  {
  }

  /** The invariant holds of whatever is passed, and of the bytes before it. */
  lemma {:induction false} LeadsKeeps(cfg: Config, a: St, s: Bytes, b: St, t: Bytes, consumed: Bytes)
    requires Leads(cfg, a, s, b, t) && Invariant(cfg, a, consumed)
    ensures |t| <= |s| && t == s[|s| - |t|..] && Invariant(cfg, b, consumed + s[..|s| - |t|])
    decreases |s|, a.mode.InNumber?, a.afterCr
  {
    hide Unit, Forgets, Invariant;
    if a == b && s == t {
      hide Leads;
      assert consumed + s[..0] == consumed;
    } else if s != [] && Unit(cfg, a, s).Go? && Leads(cfg, Unit(cfg, a, s).st, s[Unit(cfg, a, s).n..], b, t) {
      hide Leads;
      var n := Unit(cfg, a, s).n;
      UnitKeeps(cfg, a, s, consumed);
      LeadsKeeps(cfg, Unit(cfg, a, s).st, s[n..], b, t, consumed + s[..n]);
      RestOfRest(s, n, |t|);
      Rest(s, n, |s| - |t|);
      Assoc(consumed, s[..n], s[n..][..|s| - n - |t|]);
    } else {
      hide Leads;
      ForgetsCr(a, s);
      ForgettingKeeps(cfg, a, consumed);
      LeadsKeeps(cfg, a.(afterCr := false), s, b, t, consumed);
    }
  }

  lemma ForgettingKeeps(cfg: Config, a: St, consumed: Bytes)
    requires Invariant(cfg, a, consumed)
    ensures Invariant(cfg, a.(afterCr := false), consumed)
  {
  }
}
