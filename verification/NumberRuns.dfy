// Runs of the machine over a number.
module NumberRuns {
  import opened Base
  import opened Machine
  import Numbers
  import opened Passages
  import Chunks

  function Within(st: St, num: Numbers.Num): St {
    st.(mode := InNumber(num))
  }

  lemma {:induction false} RunDigits(cfg: Config, st: St, num: Numbers.Num, digits: Bytes, rest: Bytes)
    requires st.mode == InNumber(num) && Numbers.InDigits(num) && AllDigits(digits)
    requires !Exceeds(num.length + |digits|, cfg.limits.numberLength)
    ensures Leads(cfg, st, digits + rest, Within(st, Numbers.Digits(num, digits)), rest)
    decreases |digits|
  {
    if digits == [] {
      assert digits + rest == rest;
      LeadsNowhere(cfg, st, rest);
    } else {
      hide Leads, Numbers.Continue;
      var init, last := digits[..|digits| - 1], digits[|digits| - 1];
      Assoc(init, [last], rest);
      assert init + [last] == digits;
      RunDigits(cfg, st, num, init, [last] + rest);
      var before := Numbers.Digits(num, init);
      DigitContinues(before, last);
      assert ([last] + rest)[1..] == rest;
      var after := Within(st, Numbers.Digits(num, digits));
      LeadsOne(cfg, Within(st, before), [last] + rest, after, 1);
      LeadsOn(cfg, st, digits + rest, Within(st, before), [last] + rest, after, rest);
    }
  }

  lemma DigitContinues(n: Numbers.Num, b: Byte)
    requires Numbers.InDigits(n) && IsDigit(b)
    ensures Numbers.Continue(n, b).Next?
  {
  }

  lemma {:induction false} RunDigitsTooLong(cfg: Config, st: St, num: Numbers.Num, digits: Bytes, rest: Bytes)
    requires st.mode == InNumber(num) && Numbers.InDigits(num) && AllDigits(digits) && digits != []
    requires Exceeds(num.length + |digits|, cfg.limits.numberLength)
    ensures Run(cfg, st, digits + rest).Fail?
    decreases |digits|
  {
    hide Run, Numbers.Continue;
    DigitContinues(num, digits[0]);
    assert (digits + rest)[0] == digits[0];
    var next := Numbers.Continue(num, digits[0]).num;
    if Exceeds(num.length + 1, cfg.limits.numberLength) {
      Chunks.RunFails(cfg, st, digits + rest);
    } else {
      Base.Within(digits, rest, 1);
      Chunks.RunGoes(cfg, st, digits + rest, Within(st, next), 1);
      StageStays(num, digits[0]);
      RunDigitsTooLong(cfg, Within(st, next), next, digits[1..], rest);
    }
  }

  lemma StageStays(n: Numbers.Num, b: Byte)
    requires Numbers.InDigits(n) && IsDigit(b)
    ensures Numbers.Continue(n, b).Next? && Numbers.InDigits(Numbers.Continue(n, b).num)
  {
  }
}
