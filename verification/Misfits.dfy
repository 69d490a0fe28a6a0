// Where a key does not fit the ring, no run gets past it.
module Misfits {
  import opened Base
  import opened Machine
  import opened Documents
  import opened Passages
  import Chunks

  /** Seen only as far as a full ring would show it, a key that does not fit is not passed. */
  lemma {:induction false} MisfitStays(cfg: Config, a: St, s: Bytes, b: St, t: Bytes, more: Bytes, capacity: nat)
    requires Leads(cfg, a, s, b, t) && !KeysFit(cfg, a, s + more, capacity)
    requires LeftAtMisfit(cfg, a, s + more, capacity) <= capacity + |more|
    ensures !KeysFit(cfg, b, t + more, capacity)
    ensures LeftAtMisfit(cfg, b, t + more, capacity) == LeftAtMisfit(cfg, a, s + more, capacity)
    decreases |s|, a.mode.InNumber?, a.afterCr
  {
    hide Unit;
    if a == b && s == t {
    } else if s != [] && Unit(cfg, a, s).Go? && Leads(cfg, Unit(cfg, a, s).st, s[Unit(cfg, a, s).n..], b, t) {
      var n := Unit(cfg, a, s).n;
      Chunks.UnitStable(cfg, a, s, more);
      Within(s, more, n);
      NotAtMisfit(cfg, a, s, more, capacity);
      MisfitStays(cfg, Unit(cfg, a, s).st, s[n..], b, t, more, capacity);
    } else {
      ForgetsSafely(cfg, a, s + more);
      MisfitStays(cfg, a.(afterCr := false), s, b, t, more, capacity);
    }
  }

  /** What can be worked on is no such key, unless more of it is seen than fits. */
  lemma NotAtMisfit(cfg: Config, st: St, s: Bytes, more: Bytes, capacity: nat)
    requires s != [] && Unit(cfg, st, s).Go?
    ensures AtKey(st, s + more) && |s| <= capacity <= |s + more| ==> !ScanKey((s + more)[..capacity], 1, cfg.limits.nameLength).KeyNeed?
  {
    if AtKey(st, s + more) && |s| <= capacity <= |s + more| {
      assert (s + more)[..capacity] == s + more[..capacity - |s|];
      Chunks.ScanKeyStable(s, more[..capacity - |s|], 1, cfg.limits.nameLength);
    }
  }
}
