// What holds in every state the machine can reach, whatever it is given.
module Invariants {
  import opened Base
  import opened Events
  import opened Machine
  import Numbers

  // ---------- Well-formed event streams ----------

  /** What may come next in a stream of events. */
  datatype Due = AnyValue | ItemOrEnd | KeyOrEnd | InText | Nothing

  datatype Nest = Nest(open: seq<Context>, due: Due)

  /** After a value. */
  function Resumed(open: seq<Context>): Nest {
    Nest(open, match Top(open) case None => Nothing case Some(InArray) => ItemOrEnd case Some(InObject) => KeyOrEnd)
  }

  function Follow(n: Nest, e: Event): Option<Nest> {
    var value := n.due.AnyValue? || n.due.ItemOrEnd?;
    match e
    case StartObject(_) => if value then Some(Nest(n.open + [InObject], KeyOrEnd)) else None
    case StartArray(_) => if value then Some(Nest(n.open + [InArray], ItemOrEnd)) else None
    case EndObject(_) => if n.due.KeyOrEnd? then Some(Resumed(Pop(n.open))) else None
    case EndArray(_) => if n.due.ItemOrEnd? then Some(Resumed(Pop(n.open))) else None
    case Key(_, _) => if n.due.KeyOrEnd? then Some(Nest(n.open, AnyValue)) else None
    case StartString(_) => if value then Some(Nest(n.open, InText)) else None
    case Content(_) => if n.due.InText? then Some(n) else None
    case EndString(_) => if n.due.InText? then Some(Resumed(n.open)) else None
    case NumberValue(_, _) => if value then Some(Resumed(n.open)) else None
    case BooleanValue(_, _) => if value then Some(Resumed(n.open)) else None
    case NullValue(_) => if value then Some(Resumed(n.open)) else None
    case Whitespace(_) => if n.due.InText? then None else Some(n)
  }

  /** Follows a stream of events: where it leaves off, or nothing if it is ill-formed. */
  function Walk(log: Log): Option<Nest> {
    if log == [] then Some(Nest([], AnyValue))
    else
      match Walk(log[..|log| - 1])
      case None => None
      case Some(n) => Follow(n, log[|log| - 1])
  }

  lemma WalkSnoc(log: Log, e: Event)
    ensures Walk(log + [e]) == match Walk(log) case None => None case Some(n) => Follow(n, e)
  {
    assert (log + [e])[..|log|] == log;
  }

  /** Joining pieces does not change where a stream leaves off. */
  lemma WalkJoin(log: Log, e: Event)
    requires Walk(log).Some?
    ensures Walk(Join(log, e)) == Follow(Walk(log).value, e)
  {
    hide Walk, Follow;
    var last := |log| - 1;
    if last >= 0 && e.Content? && log[last].Content? {
      WalkPiece(log, e, Content(log[last].text + e.text));
    } else if last >= 0 && e.Whitespace? && log[last].Whitespace? {
      WalkPiece(log, e, Whitespace(log[last].space + e.space));
    } else {
      WalkSnoc(log, e);
    }
  }

  /** A piece after another, and the two of them joined. */
  lemma WalkPiece(log: Log, e: Event, joined: Event)
    requires log != [] && Walk(log).Some?
    requires (e.Content? && log[|log| - 1].Content? && joined.Content?) || (e.Whitespace? && log[|log| - 1].Whitespace? && joined.Whitespace?)
    ensures Walk(log[..|log| - 1] + [joined]) == Follow(Walk(log).value, e)
  {
    var init, piece := log[..|log| - 1], log[|log| - 1];
    assert log == init + [piece];
    hide Walk, Follow;
    WalkSnoc(init, piece);
    WalkSnoc(init, joined);
    if Walk(init).Some? {
      FollowTwice(Walk(init).value, piece, e, joined);
    }
  }

  lemma FollowTwice(n: Nest, piece: Event, e: Event, joined: Event)
    requires Follow(n, piece).Some?
    requires (e.Content? && piece.Content? && joined.Content?) || (e.Whitespace? && piece.Whitespace? && joined.Whitespace?)
    ensures Follow(Follow(n, piece).value, e) == Follow(n, joined)
  {
  }

  function Rank(n: Nest): nat {
    if n.due.AnyValue? then 2 else if n.due.InText? then 1 else 0
  }

  /** An event that brings a stream nearer to its end. */
  lemma Nearer(n: Nest) returns (e: Event)
    requires Nested(n) && !n.due.Nothing?
    ensures Follow(n, e).Some? && Nested(Follow(n, e).value)
    ensures var m := Follow(n, e).value;
            |m.open| < |n.open| || (|m.open| == |n.open| && Rank(m) < Rank(n))
  {
    var at := Pos(1, 1);
    e := match n.due case AnyValue => NullValue(at) case InText => EndString(at)
                     case ItemOrEnd => EndArray(at) case _ => EndObject(at);
  }

  /** Every stream followed so far is the front of a whole one. */
  lemma {:induction false} StreamCompletes(log: Log) returns (more: Log)
    requires Walk(log).Some? && Nested(Walk(log).value)
    ensures Walk(log + more) == Some(Nest([], Nothing))
    decreases |Walk(log).value.open|, Rank(Walk(log).value)
  {
    var n := Walk(log).value;
    if n.due.Nothing? {
      more := [];
      assert log + [] == log;
    } else {
      hide Walk, Follow, Nested, Rank;
      var e := Nearer(n);
      WalkSnoc(log, e);
      var rest := StreamCompletes(log + [e]);
      more := [e] + rest;
      Assoc(log, [e], rest);
    }
  }

  /** What is due agrees with what is open. */
  predicate Nested(n: Nest) {
    match n.due
    case AnyValue => Top(n.open) != Some(InArray)
    case ItemOrEnd => Top(n.open) == Some(InArray)
    case KeyOrEnd => Top(n.open) == Some(InObject)
    case InText => true
    case Nothing => n.open == []
  }

  // ---------- Reachable states ----------

  function OpenObjects(stack: seq<Context>): nat {
    if stack == [] then 0 else OpenObjects(Pop(stack)) + if Top(stack) == Some(InObject) then 1 else 0
  }

  lemma OpenObjectsSnoc(stack: seq<Context>, c: Context)
    ensures OpenObjects(stack + [c]) == OpenObjects(stack) + if c.InObject? then 1 else 0
    ensures Top(stack + [c]) == Some(c) && Pop(stack + [c]) == stack
  {
    assert (stack + [c])[..|stack|] == stack;
  }

  /** What is due, as the machine's state has it. */
  function DueIn(st: St): Due {
    if st.mode.InString? then InText
    else
      match st.state
      case ExpectValue => if Top(st.stack) == Some(InArray) then ItemOrEnd else AnyValue
      case ExpectKey => KeyOrEnd
      case ExpectColon => AnyValue
      case AfterValue => Resumed(st.stack).due
  }

  /** A number in progress is no wider than it is long, and not too long. */
  predicate NumberCoherent(cfg: Config, num: Numbers.Num) {
    && num.stage != Numbers.Idle && Numbers.Narrow(num)
    && (num.length > 1 ==> !Exceeds(num.length, cfg.limits.numberLength))
  }

  /** The grammar state fits the stack. */
  predicate Coherent(cfg: Config, st: St) {
    && |st.dups| == (if cfg.rejectDuplicates then OpenObjects(st.stack) else 0)
    && (st.state == ExpectKey || st.state == ExpectColon ==> Top(st.stack) == Some(InObject))
    && (!st.mode.Plain? ==> st.state == ExpectValue && st.seen)
    && (st.mode.InNumber? ==> NumberCoherent(cfg, st.mode.num))
    && (st.stack == [] && st.mode.Plain? ==> (st.seen <==> st.state == AfterValue))
    && (st.stack != [] ==> st.seen)
    && (st.afterComma ==> st.stack != [] && st.mode.Plain?
                          && st.state == if Top(st.stack) == Some(InObject) then ExpectKey else ExpectValue)
  }

  /** The events told so far are a front of a well-formed stream. */
  predicate WellTold(st: St) {
    Walk(st.log) == Some(Nest(st.stack, DueIn(st)))
  }

  /** The last token read was a comma. */
  predicate AfterAComma(consumed: Bytes) {
    consumed != [] && (consumed[|consumed| - 1] == COMMA
                       || (IsWhitespace(consumed[|consumed| - 1]) && AfterAComma(consumed[..|consumed| - 1])))
  }

  predicate EndsToken(consumed: Bytes) {
    consumed != [] && consumed[|consumed| - 1] != COMMA && !IsWhitespace(consumed[|consumed| - 1])
  }

  predicate Invariant(cfg: Config, st: St, consumed: Bytes) {
    && Coherent(cfg, st) && WellTold(st)
    && (st.mode.Plain? ==> (st.afterComma <==> AfterAComma(consumed)))
    && (st.mode.InNumber? ==> EndsToken(consumed))
  }

  lemma NestedInMachine(cfg: Config, st: St, consumed: Bytes)
    requires Invariant(cfg, st, consumed)
    ensures Walk(st.log).Some? && Nested(Walk(st.log).value)
  {
  }

  lemma Snoc(consumed: Bytes, bytes: Bytes, b: Byte)
    requires bytes != [] && bytes[|bytes| - 1] == b
    ensures b != COMMA && !IsWhitespace(b) ==> !AfterAComma(consumed + bytes)
    ensures b == COMMA ==> AfterAComma(consumed + bytes)
    ensures |bytes| == 1 && IsWhitespace(b) ==> AfterAComma(consumed + bytes) == AfterAComma(consumed)
  {
    if |bytes| == 1 {
      assert (consumed + bytes)[..|consumed|] == consumed;
    }
  }

  lemma SpaceKeeps(cfg: Config, st: St, b: Byte, consumed: Bytes)
    requires Invariant(cfg, st, consumed) && st.mode.Plain? && IsWhitespace(b)
    ensures Invariant(cfg, WhitespaceStep(cfg, st, b), consumed + [b])
  {
    hide Walk, Join, AfterAComma;
    Snoc(consumed, [b], b);
    WalkJoin(st.log, Whitespace([b]));
  }

  lemma OpenKeeps(cfg: Config, st: St, context: Context, consumed: Bytes, b: Byte)
    requires Invariant(cfg, st, consumed) && st.mode.Plain? && OpenStep(cfg, st, context).Go? && b != COMMA && !IsWhitespace(b)
    ensures Invariant(cfg, OpenStep(cfg, st, context).st, consumed + [b])
  {
    hide Walk, Join, AfterAComma, OpenObjects;
    Snoc(consumed, [b], b);
    OpenObjectsSnoc(st.stack, context);
    WalkJoin(st.log, StartObject(Advance(st, 1).at));
    WalkJoin(st.log, StartArray(Advance(st, 1).at));
  }

  lemma CloseKeeps(cfg: Config, st: St, context: Context, consumed: Bytes, b: Byte)
    requires Invariant(cfg, st, consumed) && st.mode.Plain? && CloseStep(cfg, st, context).Go? && b != COMMA && !IsWhitespace(b)
    ensures Invariant(cfg, CloseStep(cfg, st, context).st, consumed + [b])
  {
    hide Walk, Join, AfterAComma;
    Snoc(consumed, [b], b);
    WalkJoin(st.log, EndObject(Advance(st, 1).at));
    WalkJoin(st.log, EndArray(Advance(st, 1).at));
    assert OpenObjects(st.stack) == OpenObjects(Pop(st.stack)) + if context.InObject? then 1 else 0;
  }

  lemma SeparatorKeeps(cfg: Config, st: St, b: Byte, consumed: Bytes)
    requires Invariant(cfg, st, consumed) && st.mode.Plain?
    ensures b == COMMA && CommaStep(cfg, st).Go? ==> Invariant(cfg, CommaStep(cfg, st).st, consumed + [b])
    ensures b == COLON && ColonStep(cfg, st).Go? ==> Invariant(cfg, ColonStep(cfg, st).st, consumed + [b])
  {
    hide Walk, AfterAComma, OpenObjects;
    Snoc(consumed, [b], b);
  }

  lemma LiteralKeeps(cfg: Config, st: St, n: nat, value: Option<bool>, consumed: Bytes, bytes: Bytes)
    requires Invariant(cfg, st, consumed) && st.mode.Plain? && st.state == ExpectValue && LiteralFound(cfg, st, n, value).Go?
    requires bytes != [] && !IsWhitespace(bytes[|bytes| - 1]) && bytes[|bytes| - 1] != COMMA
    ensures Invariant(cfg, LiteralFound(cfg, st, n, value).st, consumed + bytes)
  {
    hide Walk, Join, AfterAComma, OpenObjects;
    Snoc(consumed, bytes, bytes[|bytes| - 1]);
    var at := Advance(st, n).at;
    WalkJoin(st.log, if value.Some? then BooleanValue(value.value, at) else NullValue(at));
  }

  lemma KeyKeeps(cfg: Config, st: St, s: Bytes, consumed: Bytes)
    requires Invariant(cfg, st, consumed) && st.mode.Plain? && st.state == ExpectKey && s != [] && KeyStep(cfg, st, s).Go?
    ensures Invariant(cfg, KeyStep(cfg, st, s).st, consumed + s[..KeyStep(cfg, st, s).n])
  {
    hide Walk, Join, AfterAComma, OpenObjects, ScanKey, KeyReading;
    var end := ScanKey(s, 1, cfg.limits.nameLength).end;
    var r := KeyReading(s, end);
    Snoc(consumed, s[..end + 1], QUOTE);
    WalkJoin(st.log, Key(r.text, Advance(st, 2 + r.units).at));
  }

  lemma StartsKeep(cfg: Config, st: St, b: Byte, consumed: Bytes)
    requires Invariant(cfg, st, consumed) && st.mode.Plain? && st.state == ExpectValue
    ensures StartStringStep(cfg, st).Go? ==> Invariant(cfg, StartStringStep(cfg, st).st, consumed + [b])
    ensures (b == MINUS || IsDigit(b)) && StartNumberStep(cfg, st, b).Go? ==> Invariant(cfg, StartNumberStep(cfg, st, b).st, consumed + [b])
  {
    hide Walk, Join, AfterAComma, OpenObjects;
    WalkJoin(st.log, StartString(Advance(st, 1).at));
  }

  lemma QuotePiece(s: Bytes)
    requires s != []
    ensures PieceAt(s).Quote? ==> s[0] == QUOTE
  {
  }

  lemma StringKeeps(cfg: Config, st: St, raw: nat, s: Bytes, consumed: Bytes)
    requires Invariant(cfg, st, consumed) && st.mode == InString(raw) && s != [] && StringStep(cfg, st, raw, s).Go?
    ensures Invariant(cfg, StringStep(cfg, st, raw, s).st, consumed + s[..StringStep(cfg, st, raw, s).n])
  {
    hide Walk, Join, AfterAComma, OpenObjects, PieceAt;
    var p := PieceAt(s);
    if p.Quote? {
      QuotePiece(s);
      Snoc(consumed, s[..1], QUOTE);
      WalkJoin(st.log, EndString(Advance(st, 1).at));
    } else {
      WalkJoin(st.log, Content(p.text));
    }
  }

  lemma NumberKeeps(cfg: Config, st: St, num: Numbers.Num, b: Byte, consumed: Bytes)
    requires Invariant(cfg, st, consumed) && st.mode == InNumber(num) && NumberStep(cfg, st, num, b).Go?
    ensures var o := NumberStep(cfg, st, num, b);
            Invariant(cfg, o.st, consumed + [b][..o.n])
  {
    hide Walk, Join, AfterAComma, OpenObjects, Numbers.NumberValue, Numbers.Continue;
    if Numbers.Continue(num, b).Next? {
      NumberByte(num, b);
      Numbers.StaysNarrow(num, b);
    } else {
      assert consumed + [b][..0] == consumed;
      EmitKeeps(cfg, st, num, consumed);
    }
  }

  lemma EmitKeeps(cfg: Config, st: St, num: Numbers.Num, consumed: Bytes)
    requires Invariant(cfg, st, consumed) && st.mode == InNumber(num)
    ensures Invariant(cfg, EmitNumber(st, num), consumed)
  {
    hide Walk, Join, OpenObjects, Numbers.NumberValue;
    WalkJoin(st.log, NumberValue(Numbers.NumberValue(num), Advance(st, num.length).at));
  }

  lemma NumberByte(num: Numbers.Num, b: Byte)
    requires num.stage != Numbers.Idle && Numbers.Continue(num, b).Next?
    ensures b != COMMA && !IsWhitespace(b)
  {
    hide Numbers.TakeDigit, Numbers.TakeExponentDigit;
  }

  lemma TokenKeeps(cfg: Config, st: St, s: Bytes, consumed: Bytes)
    requires Invariant(cfg, st, consumed) && st.mode.Plain? && s != [] && TokenStep(cfg, st, s).Go?
    ensures var o := TokenStep(cfg, st, s);
            o.n <= |s| && Invariant(cfg, o.st, consumed + s[..o.n])
  {
    hide Invariant, KeyStep, CommaStep, ColonStep, OpenStep, CloseStep, StartStringStep, StartNumberStep, LiteralFound, Coherent;
    var b := s[0];
    assert s[..1] == [b];
    if b == QUOTE {
      if st.state == ExpectKey {
        KeyKeeps(cfg, st, s, consumed);
      } else {
        StartsKeep(cfg, st, b, consumed);
      }
    } else if b == COMMA || b == COLON {
      SeparatorKeeps(cfg, st, b, consumed);
    } else if b == LBRACE || b == LBRACKET {
      OpenKeeps(cfg, st, if b == LBRACE then InObject else InArray, consumed, b);
    } else if b == RBRACE || b == RBRACKET {
      CloseKeeps(cfg, st, if b == RBRACE then InObject else InArray, consumed, b);
    } else if b == MINUS || IsDigit(b) {
      StateForNumber(cfg, st, b);
      StartsKeep(cfg, st, b, consumed);
    } else {
      var rest := if b == 0x74 then RUE else if b == 0x66 then ALSE else ULL;
      var value := if b == 0x74 then Some(true) else if b == 0x66 then Some(false) else None;
      LiteralEnds(cfg, st, s, rest, value);
      LiteralKeeps(cfg, st, 1 + |rest|, value, consumed, s[..1 + |rest|]);
    }
    OneByte(cfg, st, s);
  }

  lemma StateForNumber(cfg: Config, st: St, b: Byte)
    requires (b == MINUS || IsDigit(b)) && StartNumberStep(cfg, st, b).Go?
    ensures st.state == ExpectValue
  {
  }

  lemma OneByte(cfg: Config, st: St, s: Bytes)
    requires s != [] && st.mode.Plain? && TokenStep(cfg, st, s).Go?
    ensures TokenStep(cfg, st, s).n <= |s|
    ensures s[0] in {COMMA, COLON, LBRACE, RBRACE, LBRACKET, RBRACKET, MINUS} || IsDigit(s[0]) || (s[0] == QUOTE && st.state != ExpectKey) ==>
              TokenStep(cfg, st, s).n == 1
  {
  }

  lemma LiteralEnds(cfg: Config, st: St, s: Bytes, rest: Bytes, value: Option<bool>)
    requires s != [] && rest in {RUE, ALSE, ULL} && LiteralStep(cfg, st, s, rest, value).Go?
    ensures st.state == ExpectValue && 1 + |rest| <= |s| && s[|rest|] == rest[|rest| - 1]
    ensures LiteralStep(cfg, st, s, rest, value) == LiteralFound(cfg, st, 1 + |rest|, value)
    ensures LiteralStep(cfg, st, s, rest, value).n == 1 + |rest|
  {
    assert rest[..|rest|] == rest;
    assert s[1..1 + |rest|][|rest| - 1] == s[|rest|];
  }

  /** Every unit keeps the invariant. */
  lemma UnitKeeps(cfg: Config, st: St, s: Bytes, consumed: Bytes)
    requires Invariant(cfg, st, consumed) && s != []
    ensures var o := Unit(cfg, st, s);
            match o
            case Go(next, n) => n <= |s| && Invariant(cfg, next, consumed + s[..n])
            case Wait(waiting) => Invariant(cfg, waiting, consumed)
            case Bad => true
  {
    hide TokenStep, StringStep, NumberStep, Walk, AfterAComma;
    assert s[..1] == [s[0]] && [s[0]][..0] == s[..0] && [s[0]][..1] == s[..1];
    WaitKeeps(cfg, st, s);
    match st.mode
    case InString(raw) =>
      if StringStep(cfg, st, raw, s).Go? { StringKeeps(cfg, st, raw, s, consumed); }
    case InNumber(num) =>
      if NumberStep(cfg, st, num, s[0]).Go? { NumberKeeps(cfg, st, num, s[0], consumed); }
    case Plain =>
      if IsWhitespace(s[0]) {
        SpaceKeeps(cfg, st, s[0], consumed);
      } else {
        var cleared := st.(afterCr := false);
        if TokenStep(cfg, cleared, s).Go? { TokenKeeps(cfg, cleared, s, consumed); }
      }
  }

  lemma WaitKeeps(cfg: Config, st: St, s: Bytes)
    requires s != []
    ensures Unit(cfg, st, s).Wait? ==> Unit(cfg, st, s).st == st || Unit(cfg, st, s).st == st.(afterCr := false)
    ensures st.mode.InNumber? && Unit(cfg, st, s).Go? ==> Unit(cfg, st, s).n <= 1
  {
  }

  /** In every state a run reaches, the invariant holds of what it has consumed. */
  lemma {:induction false} RunKeeps(cfg: Config, st: St, s: Bytes, consumed: Bytes)
    requires Invariant(cfg, st, consumed)
    ensures match Run(cfg, st, s)
            case Stop(reached, rest) =>
              |rest| <= |s| && rest == s[|s| - |rest|..] && Invariant(cfg, reached, consumed + s[..|s| - |rest|])
            case Fail => true
    decreases |s|, st.mode.InNumber?
  {
    hide Invariant, Unit;
    if s == [] {
      assert consumed + s[..0] == consumed;
    } else {
      UnitKeeps(cfg, st, s, consumed);
      match Unit(cfg, st, s)
      case Go(next, n) =>
        RunKeeps(cfg, next, s[n..], consumed + s[..n]);
        var r := Run(cfg, next, s[n..]);
        if r.Stop? {
          var m := |s| - n - |r.rest|;
          assert consumed + s[..n] + s[n..][..m] == consumed + s[..n + m];
        }
      case _ => assert consumed + s[..0] == consumed;
    }
  }

  lemma Initially(cfg: Config)
    ensures Invariant(cfg, INITIAL, [])
  {
  }

  /** What the machine has told, wherever it has got to, is the front of a
      well-formed stream of events. */
  lemma ToldIsPrefix(cfg: Config, s: Bytes) returns (more: Log)
    requires Run(cfg, INITIAL, s).Stop?
    ensures Walk(Run(cfg, INITIAL, s).st.log + more) == Some(Nest([], Nothing))
  {
    hide Run, Walk;
    Initially(cfg);
    RunKeeps(cfg, INITIAL, s, []);
    var r := Run(cfg, INITIAL, s);
    NestedInMachine(cfg, r.st, [] + s[..|s| - |r.rest|]);
    more := StreamCompletes(r.st.log);
  }

  /** At the end, closing need not look at the grammar state: nothing open means a whole value. */
  lemma CloseNeedsNoState(cfg: Config, s: Bytes)
    ensures match Run(cfg, INITIAL, s)
            case Stop(st, _) => st.seen && st.stack == [] && st.mode.Plain? ==> st.state == AfterValue
            case Fail => true
  {
    hide Run;
    Initially(cfg);
    RunKeeps(cfg, INITIAL, s, []);
  }
}
