// Documents cut short between tokens: the states the tokenizer can be in are
// exactly theirs.
module Prefixes {
  import opened Base
  import opened Events
  import opened Machine
  import opened Positions
  import opened StringGrammar
  import opened Grammar
  import opened TokenRuns
  import opened Documents
  import NumberLaws

  /** Where a value is to go: what surrounds it, up to there. */
  datatype Hole =
    | Top(before: Space)
    | Elem(outer: Hole, init: Items, before: Space)
    | Field(outer: Hole, names: Members, before: Space, key: Content, mid: Space, after: Space)

  /** A document cut between tokens. */
  datatype Prefix =
    | Awaiting(hole: Hole)
    | Done(hole: Hole, value: Value, space: Space)
    | AwaitingKey(outer: Hole, names: Members, before: Space)
    | AwaitingColon(outer: Hole, names: Members, before: Space, key: Content, mid: Space)

  const START := Awaiting(Top([]))

  function HoleAccount(ws: bool, h: Hole): Account {
    match h
    case Top(before) => Spaced(ws, NOTHING, before)
    case Elem(outer, init, before) => Spaced(ws, NextItem(ws, Opened(HoleAccount(ws, outer), InArray), init), before)
    case Field(outer, names, before, key, mid, after) =>
      Spaced(ws, AtMemberValue(ws, NextMember(ws, Opened(HoleAccount(ws, outer), InObject), names), before, key, mid), after)
  }

  /** What has been read, told and counted. */
  function AccountOf(ws: bool, p: Prefix): Account {
    match p
    case Awaiting(h) => HoleAccount(ws, h)
    case Done(h, v, space) => Spaced(ws, After(ws, HoleAccount(ws, h), v), space)
    case AwaitingKey(outer, names, before) =>
      Spaced(ws, NextMember(ws, Opened(HoleAccount(ws, outer), InObject), names), before)
    case AwaitingColon(outer, names, before, key, mid) =>
      Spaced(ws, Grammar.AfterKey(Spaced(ws, NextMember(ws, Opened(HoleAccount(ws, outer), InObject), names), before), key), mid)
  }

  // ---------- The machine's state ----------

  function Stack(h: Hole): seq<Context> {
    match h
    case Top(_) => []
    case Elem(outer, _, _) => Stack(outer) + [InArray]
    case Field(outer, _, _, _, _, _) => Stack(outer) + [InObject]
  }

  /** One set of key names for each open object, if they are kept. */
  function Dups(cfg: Config, h: Hole): seq<set<Bytes>>
    decreases h, 0
  {
    match h
    case Top(_) => []
    case Elem(outer, _, _) => Dups(cfg, outer)
    case Field(outer, names, _, key, _, _) => Noted(cfg, outer, Keys(names) + {Decode(key)})
  }

  function Noted(cfg: Config, outer: Hole, keys: set<Bytes>): seq<set<Bytes>>
    decreases outer, 1
  {
    if cfg.rejectDuplicates then Dups(cfg, outer) + [keys] else Dups(cfg, outer)
  }

  function ShapeOf(cfg: Config, p: Prefix): Shape {
    match p
    case Awaiting(h) => Shape(Stack(h), ExpectValue, h.Elem? && h.init.Items?, Dups(cfg, h))
    case Done(h, _, _) => Shape(Stack(h), AfterValue, false, Dups(cfg, h))
    case AwaitingKey(outer, names, _) =>
      Shape(Stack(outer) + [InObject], ExpectKey, names.Members?, Noted(cfg, outer, Keys(names)))
    case AwaitingColon(outer, names, _, key, _) =>
      Shape(Stack(outer) + [InObject], ExpectColon, false, Noted(cfg, outer, Keys(names) + {Decode(key)}))
  }

  function StateOf(cfg: Config, p: Prefix): St {
    At(cfg, ShapeOf(cfg, p), AccountOf(cfg.needsWhitespace, p))
  }

  // ---------- Limits ----------

  predicate HoleFits(cfg: Config, h: Hole) {
    match h
    case Top(_) => true
    case Elem(outer, init, _) =>
      HoleFits(cfg, outer) && DepthFits(cfg, |Stack(h)|) && ItemsFit(cfg, init, |Stack(h)|)
    case Field(outer, names, _, key, _, _) =>
      HoleFits(cfg, outer) && DepthFits(cfg, |Stack(h)|) && MembersFit(cfg, names, |Stack(h)|) && KeyFits(cfg, names, key)
  }

  predicate PartsFit(cfg: Config, p: Prefix) {
    match p
    case Awaiting(h) => HoleFits(cfg, h)
    case Done(h, v, _) => HoleFits(cfg, h) && Fits(cfg, v, |Stack(h)|)
    case AwaitingKey(outer, names, _) =>
      HoleFits(cfg, outer) && DepthFits(cfg, |Stack(outer)| + 1) && MembersFit(cfg, names, |Stack(outer)| + 1)
    case AwaitingColon(outer, names, _, key, _) =>
      HoleFits(cfg, outer) && DepthFits(cfg, |Stack(outer)| + 1) && MembersFit(cfg, names, |Stack(outer)| + 1)
      && KeyFits(cfg, names, key)
  }

  predicate PrefixFits(cfg: Config, p: Prefix) {
    PartsFit(cfg, p) && TokensFit(cfg, AccountOf(cfg.needsWhitespace, p))
  }

  // ---------- One token less ----------

  function Trailing(p: Prefix): Space {
    match p
    case Awaiting(Top(before)) => before
    case Awaiting(Elem(_, _, before)) => before
    case Awaiting(Field(_, _, _, _, _, after)) => after
    case Done(_, _, space) => space
    case AwaitingKey(_, _, before) => before
    case AwaitingColon(_, _, _, _, mid) => mid
  }

  function WithTrailing(p: Prefix, space: Space): Prefix {
    match p
    case Awaiting(Top(_)) => Awaiting(Top(space))
    case Awaiting(Elem(outer, init, _)) => Awaiting(Elem(outer, init, space))
    case Awaiting(Field(outer, names, before, key, mid, _)) => Awaiting(Field(outer, names, before, key, mid, space))
    case Done(h, v, _) => Done(h, v, space)
    case AwaitingKey(outer, names, _) => AwaitingKey(outer, names, space)
    case AwaitingColon(outer, names, before, key, _) => AwaitingColon(outer, names, before, key, space)
  }

  /** A document cut after a token: where it was before that token, and the token. */
  datatype Step = Step(before: Prefix, bytes: Bytes)

  function LastStep(p: Prefix): (step: Step)
    requires p != START
    ensures step.bytes != []
  {
    var space := Trailing(p);
    if space != [] then Step(WithTrailing(p, space[..|space| - 1]), [space[|space| - 1]])
    else
      match p
      case Awaiting(Elem(outer, NoItems, _)) => Step(Awaiting(outer), [LBRACKET])
      case Awaiting(Elem(outer, Items(init, last), _)) => Step(Done(Elem(outer, init, last.before), last.value, last.after), [COMMA])
      case Awaiting(Field(outer, names, before, key, mid, _)) => Step(AwaitingColon(outer, names, before, key, mid), [COLON])
      case AwaitingKey(outer, NoMembers, _) => Step(Awaiting(outer), [LBRACE])
      case AwaitingKey(outer, Members(init, last), _) => Step(AfterLast(outer, init, last), [COMMA])
      case AwaitingColon(outer, names, before, key, _) => Step(AwaitingKey(outer, names, before), [QUOTE] + key + [QUOTE])
      case Done(h, v, _) => ValueStep(h, v)
  }

  function AfterLast(outer: Hole, init: Members, last: Member): Prefix {
    Done(Field(outer, init, last.before, last.key, last.mid, last.item.before), last.item.value, last.item.after)
  }

  function ValueStep(h: Hole, v: Value): (step: Step)
    ensures step.bytes != []
  {
    match v
    case Literal(w) => Step(Awaiting(h), WordText(w))
    case Number(t) => NumeralOnLine(t); Step(Awaiting(h), NumberLaws.Text(t))
    case Str(raw) => Step(Awaiting(h), [QUOTE] + raw + [QUOTE])
    case EmptyArray(space) => Step(Awaiting(Elem(h, NoItems, space)), [RBRACKET])
    case Array(init, last) => Step(Done(Elem(h, init, last.before), last.value, last.after), [RBRACKET])
    case EmptyObject(space) => Step(AwaitingKey(h, NoMembers, space), [RBRACE])
    case Object(names, final) => Step(AfterLast(h, names, final), [RBRACE])
  }

  /** A number is whole only once what follows does not belong to it. */
  predicate Settled(p: Prefix, rest: Bytes) {
    p.Done? && p.value.Number? && p.space == [] ==> Ends(NumberLaws.AfterToken(p.value.numeral), rest)
  }

  /** What the machine does with the last token of `p`. */
  ghost predicate Moves(cfg: Config, p: Prefix, rest: Bytes, capacity: nat)
    requires p != START
  {
    var step := LastStep(p);
    && AccountOf(cfg.needsWhitespace, p).text == AccountOf(cfg.needsWhitespace, step.before).text + step.bytes
    && (PrefixFits(cfg, p) ==> PrefixFits(cfg, step.before))
    && (PrefixFits(cfg, step.before) ==>
          End(cfg, StateOf(cfg, step.before), step.bytes + rest)
          == if PrefixFits(cfg, p) then End(cfg, StateOf(cfg, p), rest) else Option.None)
    && (PrefixFits(cfg, step.before) && PrefixKeysShort(p, capacity) ==>
          (KeysFit(cfg, StateOf(cfg, step.before), step.bytes + rest, capacity)
           <==> (PrefixFits(cfg, p) ==> KeysFit(cfg, StateOf(cfg, p), rest, capacity))))
  }

  /** Every key of `p` is at most `n` bytes long with its quotes. */
  predicate PrefixKeysShort(p: Prefix, n: int) {
    match p
    case Awaiting(h) => HoleKeysShort(h, n)
    case Done(h, v, _) => HoleKeysShort(h, n) && KeysShort(v, n)
    case AwaitingKey(outer, names, _) => HoleKeysShort(outer, n) && MemberKeysShort(names, n)
    case AwaitingColon(outer, names, _, key, _) => HoleKeysShort(outer, n) && MemberKeysShort(names, n) && |key| + 2 <= n
  }

  predicate HoleKeysShort(h: Hole, n: int) {
    match h
    case Top(_) => true
    case Elem(outer, init, _) => HoleKeysShort(outer, n) && ItemKeysShort(init, n)
    case Field(outer, names, _, key, _, _) => HoleKeysShort(outer, n) && MemberKeysShort(names, n) && |key| + 2 <= n
  }

  lemma KeysShortBefore(p: Prefix, n: int)
    requires p != START && PrefixKeysShort(p, n)
    ensures PrefixKeysShort(LastStep(p).before, n)
  {
  }

  lemma SpacedMore(ws: bool, a: Account, space: Space, b: Byte)
    requires IsWhitespace(b)
    ensures Spaced(ws, a, space + [b]) == Spaced(ws, Spaced(ws, a, space), [b])
  {
    Assoc(a.text, space, [b]);
    JoinWhitespaceTwice(a.log, space, [b]);
  }

  lemma SpacedNone(ws: bool, a: Account)
    ensures Spaced(ws, a, []) == a
  {
    assert a.text + [] == a.text;
  }

  lemma SpaceMoves(cfg: Config, p: Prefix, rest: Bytes, capacity: nat)
    requires Trailing(p) != []
    ensures Moves(cfg, p, rest, capacity)
  {
    var before, b := SpaceSteps(cfg, p);
    SpaceFits(cfg, p, before, b);
    SpaceRuns(cfg, p, before, b, rest, capacity);
    hide End, KeysFit, PrefixKeysShort, AccountOf, PrefixFits, StateOf, LastStep, Trailing;
  }

  lemma SpaceFits(cfg: Config, p: Prefix, before: Prefix, b: Byte)
    requires IsWhitespace(b) && PartsFit(cfg, before) == PartsFit(cfg, p)
    requires AccountOf(cfg.needsWhitespace, p) == Spaced(cfg.needsWhitespace, AccountOf(cfg.needsWhitespace, before), [b])
    ensures PrefixFits(cfg, p) == PrefixFits(cfg, before)
    ensures AccountOf(cfg.needsWhitespace, p).text == AccountOf(cfg.needsWhitespace, before).text + [b]
  {
    hide AccountOf, PartsFit, JoinWhitespace;
  }

  lemma SpaceRuns(cfg: Config, p: Prefix, before: Prefix, b: Byte, rest: Bytes, capacity: nat)
    requires IsWhitespace(b) && ShapeOf(cfg, before) == ShapeOf(cfg, p)
    requires AccountOf(cfg.needsWhitespace, p) == Spaced(cfg.needsWhitespace, AccountOf(cfg.needsWhitespace, before), [b])
    ensures End(cfg, StateOf(cfg, before), [b] + rest) == End(cfg, StateOf(cfg, p), rest)
    ensures KeysFit(cfg, StateOf(cfg, before), [b] + rest, capacity) <==> KeysFit(cfg, StateOf(cfg, p), rest, capacity)
  {
    hide End, KeysFit, At, AccountOf, ShapeOf, Spaced;
    SpaceRun(cfg, ShapeOf(cfg, p), AccountOf(cfg.needsWhitespace, before), b, rest, capacity);
  }

  lemma SpaceSteps(cfg: Config, p: Prefix) returns (before: Prefix, b: Byte)
    requires Trailing(p) != []
    ensures p != START && LastStep(p) == Step(before, [b]) && IsWhitespace(b)
    ensures AccountOf(cfg.needsWhitespace, p) == Spaced(cfg.needsWhitespace, AccountOf(cfg.needsWhitespace, before), [b])
    ensures ShapeOf(cfg, before) == ShapeOf(cfg, p) && PartsFit(cfg, before) == PartsFit(cfg, p)
  {
    var space := Trailing(p);
    var init: Space := space[..|space| - 1];
    b := space[|space| - 1];
    before := WithTrailing(p, init);
    hide AccountOf, ShapeOf, PartsFit, Spaced;
    assert init + [b] == space;
    TrailingAccount(cfg.needsWhitespace, p, init, b);
    TrailingKeeps(cfg, p, init);
  }

  lemma TrailingAccount(ws: bool, p: Prefix, init: Space, b: Byte)
    requires IsWhitespace(b) && Trailing(p) == init + [b]
    ensures AccountOf(ws, p) == Spaced(ws, AccountOf(ws, WithTrailing(p, init)), [b])
  {
    hide Spaced, NextItem, NextMember, AtMemberValue, After, Opened, Grammar.AfterKey;
    match p {
      case Awaiting(Top(_)) => SpacedMore(ws, NOTHING, init, b);
      case Awaiting(Elem(outer, items, _)) =>
        SpacedMore(ws, NextItem(ws, Opened(HoleAccount(ws, outer), InArray), items), init, b);
      case Awaiting(Field(outer, names, before, key, mid, _)) =>
        SpacedMore(ws, AtMemberValue(ws, NextMember(ws, Opened(HoleAccount(ws, outer), InObject), names), before, key, mid), init, b);
      case Done(h, v, _) => SpacedMore(ws, After(ws, HoleAccount(ws, h), v), init, b);
      case AwaitingKey(outer, names, _) =>
        SpacedMore(ws, NextMember(ws, Opened(HoleAccount(ws, outer), InObject), names), init, b);
      case AwaitingColon(outer, names, before, key, _) =>
        SpacedMore(ws, Grammar.AfterKey(Spaced(ws, NextMember(ws, Opened(HoleAccount(ws, outer), InObject), names), before), key), init, b);
    }
  }

  lemma TrailingKeeps(cfg: Config, p: Prefix, space: Space)
    ensures ShapeOf(cfg, WithTrailing(p, space)) == ShapeOf(cfg, p) && PartsFit(cfg, WithTrailing(p, space)) == PartsFit(cfg, p)
    ensures Trailing(WithTrailing(p, space)) == space
    ensures WithTrailing(WithTrailing(p, space), Trailing(p)) == p
  {
  }

  // ---------- Every token moves the machine on ----------

  lemma OpenMoves(cfg: Config, outer: Hole, context: Context, rest: Bytes, capacity: nat)
    ensures Moves(cfg, if context.InObject? then AwaitingKey(outer, NoMembers, []) else Awaiting(Elem(outer, NoItems, [])), rest, capacity)
  {
    hide End, KeysFit, PrefixKeysShort, At, Opened;
    var a := HoleAccount(cfg.needsWhitespace, outer);
    SpacedNone(cfg.needsWhitespace, Opened(a, context));
    OpenRun(cfg, ShapeOf(cfg, Awaiting(outer)), a, context, rest, capacity);
    OpenedFields(a, context);
  }

  lemma OpenedFields(a: Account, c: Context)
    ensures Opened(a, c).text == a.text + [if c.InObject? then LBRACE else LBRACKET] && Opened(a, c).tokens == a.tokens + 1
    ensures Closed(a, c).text == a.text + [if c.InObject? then RBRACE else RBRACKET] && Closed(a, c).tokens == a.tokens + 1
  {
  }

  /** A closing bracket, from where the container is `from` to its being `v`. */
  lemma CloseMoves(cfg: Config, h: Hole, v: Value, from: Prefix, context: Context, rest: Bytes, capacity: nat)
    requires v.EmptyArray? || v.Array? || v.EmptyObject? || v.Object?
    requires context == (if v.EmptyArray? || v.Array? then InArray else InObject)
    requires LastStep(Done(h, v, [])) == Step(from, [if context.InObject? then RBRACE else RBRACKET])
    ensures Moves(cfg, Done(h, v, []), rest, capacity)
  {
    hide End, KeysFit, PrefixKeysShort, At, Closed, AccountOf, ShapeOf, PartsFit, Machine.Top, Pop;
    var a := AccountOf(cfg.needsWhitespace, from);
    SpacedNone(cfg.needsWhitespace, Closed(a, context));
    ClosedAccount(cfg.needsWhitespace, h, v, from);
    ClosedShape(cfg, h, v, from);
    ClosedFits(cfg, h, v, from);
    CloseRun(cfg, ShapeOf(cfg, from), a, context, rest, capacity);
    OpenedFields(a, context);
  }

  lemma ClosedAccount(ws: bool, h: Hole, v: Value, from: Prefix)
    requires v.EmptyArray? || v.Array? || v.EmptyObject? || v.Object?
    requires from == ValueStep(h, v).before
    ensures AccountOf(ws, Done(h, v, []))
         == Spaced(ws, Closed(AccountOf(ws, from), if v.EmptyArray? || v.Array? then InArray else InObject), [])
  {
    hide Spaced, Closed, Opened, AtMemberValue, HoleAccount;
    var a := HoleAccount(ws, h);
    if v.Array? {
      ItemUnfolds(ws, NextItem(ws, Opened(a, InArray), v.init), v.last);
      HoleUnfolds(ws, h, v.init, v.last.before, NoMembers, [], []);
    } else if v.Object? {
      MemberUnfolds(ws, NextMember(ws, Opened(a, InObject), v.names), v.final);
      HoleUnfolds(ws, h, NoItems, v.final.before, v.names, v.final.key, v.final.mid);
    } else {
      HoleUnfolds(ws, h, NoItems, v.space, NoMembers, [], []);
    }
  }

  lemma ItemUnfolds(ws: bool, a: Account, item: Item)
    ensures AfterItem(ws, a, item) == Spaced(ws, After(ws, Spaced(ws, a, item.before), item.value), item.after)
  {
  }

  lemma MemberUnfolds(ws: bool, a: Account, m: Member)
    ensures var b := AtMemberValue(ws, a, m.before, m.key, m.mid);
            AfterMember(ws, a, m) == Spaced(ws, After(ws, Spaced(ws, b, m.item.before), m.item.value), m.item.after)
  {
    hide After, Spaced;
    ItemUnfolds(ws, AtMemberValue(ws, a, m.before, m.key, m.mid), m.item);
  }

  lemma HoleUnfolds(ws: bool, h: Hole, init: Items, before: Space, names: Members, key: Content, mid: Space)
    ensures HoleAccount(ws, Elem(h, init, before)) == Spaced(ws, NextItem(ws, Opened(HoleAccount(ws, h), InArray), init), before)
    ensures forall after: Space ::
              HoleAccount(ws, Field(h, names, before, key, mid, after))
              == Spaced(ws, AtMemberValue(ws, NextMember(ws, Opened(HoleAccount(ws, h), InObject), names), before, key, mid), after)
  {
  }

  lemma PopLast<T>(s: seq<T>, x: T)
    ensures Pop(s + [x]) == s && (s + [x])[|s + [x]| - 1] == x
  {
  }

  lemma ClosedShape(cfg: Config, h: Hole, v: Value, from: Prefix)
    requires v.EmptyArray? || v.Array? || v.EmptyObject? || v.Object?
    requires from == ValueStep(h, v).before
    ensures var shape, c := ShapeOf(cfg, from), if v.EmptyArray? || v.Array? then InArray else InObject;
            && shape.stack != [] && Machine.Top(shape.stack) == Some(c) && !shape.afterComma
            && (shape.state == AfterValue || shape.state == if c.InObject? then ExpectKey else ExpectValue)
            && ShapeOf(cfg, Done(h, v, []))
               == Shape(Pop(shape.stack), AfterValue, false, if c.InObject? && cfg.rejectDuplicates then Pop(shape.dups) else shape.dups)
  {
    if v.Object? || v.EmptyObject? {
      ClosedObjectShape(cfg, h, v, from);
    } else {
      ClosedArrayShape(cfg, h, v, from);
    }
    DoneShape(cfg, h, v);
    hide *;
  }

  lemma DoneShape(cfg: Config, h: Hole, v: Value)
    ensures ShapeOf(cfg, Done(h, v, [])) == Shape(Stack(h), AfterValue, false, Dups(cfg, h))
  {
  }

  lemma ClosedArrayShape(cfg: Config, h: Hole, v: Value, from: Prefix)
    requires (v.EmptyArray? || v.Array?) && from == ValueStep(h, v).before
    ensures var shape := ShapeOf(cfg, from);
            && shape.stack != [] && Machine.Top(shape.stack) == Some(InArray) && Pop(shape.stack) == Stack(h)
            && !shape.afterComma && shape.state == (if v.Array? then AfterValue else ExpectValue)
            && shape.dups == Dups(cfg, h)
  {
    hide Pop, Decode, Keys;
    PopLast(Stack(h), InArray);
  }

  lemma ClosedObjectShape(cfg: Config, h: Hole, v: Value, from: Prefix)
    requires (v.EmptyObject? || v.Object?) && from == ValueStep(h, v).before
    ensures var shape := ShapeOf(cfg, from);
            && shape.stack != [] && Machine.Top(shape.stack) == Some(InObject) && Pop(shape.stack) == Stack(h)
            && !shape.afterComma && shape.state == (if v.Object? then AfterValue else ExpectKey)
            && (if cfg.rejectDuplicates then Pop(shape.dups) else shape.dups) == Dups(cfg, h)
  {
    hide Decode, Keys, Pop;
    PopLast(Stack(h), InObject);
    var keys := if v.Object? then Keys(v.names) + {Decode(v.final.key)} else Keys(NoMembers);
    PopLast(Dups(cfg, h), keys);
    assert v.Object? ==> Dups(cfg, from.hole) == Noted(cfg, h, keys);
  }

  lemma ClosedFits(cfg: Config, h: Hole, v: Value, from: Prefix)
    requires v.EmptyArray? || v.Array? || v.EmptyObject? || v.Object?
    requires from == ValueStep(h, v).before
    ensures PartsFit(cfg, from) == PartsFit(cfg, Done(h, v, []))
  {
    hide KeyFits;
  }

  /** A comma after an array's item or an object's member. */
  lemma CommaMoves(cfg: Config, p: Prefix, from: Prefix, rest: Bytes, capacity: nat)
    requires p != START && Trailing(p) == [] && LastStep(p) == Step(from, [COMMA])
    ensures Moves(cfg, p, rest, capacity)
  {
    var a := AccountOf(cfg.needsWhitespace, from);
    SpacedNone(cfg.needsWhitespace, Punctuated(a, COMMA));
    CommaSteps(cfg, p, from);
    CommaRun(cfg, ShapeOf(cfg, from), a, rest, capacity);
    hide End, KeysFit, PrefixKeysShort, At, AccountOf, ShapeOf, PartsFit;
  }

  lemma CommaSteps(cfg: Config, p: Prefix, from: Prefix)
    requires p != START && Trailing(p) == [] && LastStep(p) == Step(from, [COMMA])
    ensures AccountOf(cfg.needsWhitespace, p) == Spaced(cfg.needsWhitespace, Punctuated(AccountOf(cfg.needsWhitespace, from), COMMA), [])
    ensures var shape := ShapeOf(cfg, from);
            && shape.state == AfterValue && shape.stack != []
            && ShapeOf(cfg, p) == shape.(state := if Machine.Top(shape.stack) == Some(InObject) then ExpectKey else ExpectValue, afterComma := true)
    ensures PartsFit(cfg, p) == PartsFit(cfg, from)
  {
    hide Spaced, Punctuated, Opened, AtMemberValue, KeyFits, Decode;
    var ws := cfg.needsWhitespace;
    if p.AwaitingKey? {
      var last := p.names.last;
      hide After;
      MemberUnfolds(ws, NextMember(ws, Opened(HoleAccount(ws, p.outer), InObject), p.names.init), last);
    } else {
      CommaSettles(p, from);
      var last := p.hole.init.last;
      hide After;
      ItemUnfolds(ws, NextItem(ws, Opened(HoleAccount(ws, p.hole.outer), InArray), p.hole.init.init), last);
    }
  }

  lemma CommaSettles(p: Prefix, from: Prefix)
    requires p != START && Trailing(p) == [] && LastStep(p) == Step(from, [COMMA]) && !p.AwaitingKey?
    ensures p.Awaiting? && p.hole.Elem? && p.hole.init.Items?
  {
    if p.Done? && p.value.Number? {
      NumberLaws.ReadToken(p.value.numeral);
    }
  }

  lemma ColonMoves(cfg: Config, outer: Hole, names: Members, before: Space, key: Content, mid: Space, rest: Bytes, capacity: nat)
    ensures Moves(cfg, Awaiting(Field(outer, names, before, key, mid, [])), rest, capacity)
  {
    hide End, KeysFit, PrefixKeysShort, At, AccountOf, ShapeOf, PartsFit, IsContent;
    var from, p := AwaitingColon(outer, names, before, key, mid), Awaiting(Field(outer, names, before, key, mid, []));
    var a := AccountOf(cfg.needsWhitespace, from);
    ColonSteps(cfg, from, p);
    SpacedNone(cfg.needsWhitespace, Punctuated(a, COLON));
    ColonRun(cfg, ShapeOf(cfg, from), a, rest, capacity);
  }

  lemma ColonSteps(cfg: Config, from: Prefix, p: Prefix)
    requires from.AwaitingColon? && p == Awaiting(Field(from.outer, from.names, from.before, from.key, from.mid, []))
    ensures AccountOf(cfg.needsWhitespace, p) == Spaced(cfg.needsWhitespace, Punctuated(AccountOf(cfg.needsWhitespace, from), COLON), [])
    ensures ShapeOf(cfg, from).state == ExpectColon && ShapeOf(cfg, p) == ShapeOf(cfg, from).(state := ExpectValue, afterComma := false)
    ensures PartsFit(cfg, p) == PartsFit(cfg, from)
  {
    hide Spaced, Punctuated, Opened, NextMember, KeyFits, MembersFit, Decode, Grammar.AfterKey, IsContent, Keys;
  }

  lemma KeyMoves(cfg: Config, outer: Hole, names: Members, before: Space, key: Content, rest: Bytes, capacity: nat)
    ensures Moves(cfg, AwaitingColon(outer, names, before, key, []), rest, capacity)
  {
    hide End, KeysFit, At, AccountOf, ShapeOf, PartsFit, IsContent, Decode, Keys, NoteKey, Noted;
    var from, p := AwaitingKey(outer, names, before), AwaitingColon(outer, names, before, key, []);
    var a := AccountOf(cfg.needsWhitespace, from);
    KeySteps(cfg, from, p);
    SpacedNone(cfg.needsWhitespace, Grammar.AfterKey(a, key));
    KeyRun(cfg, ShapeOf(cfg, from), a, key, rest, capacity);
    KeyNoted(cfg, outer, Keys(names), Decode(key));
    assert a.text + ([QUOTE] + key + [QUOTE]) == a.text + [QUOTE] + key + [QUOTE];
  }

  lemma KeySteps(cfg: Config, from: Prefix, p: Prefix)
    requires from.AwaitingKey? && p.AwaitingColon? && p == AwaitingColon(from.outer, from.names, from.before, p.key, [])
    ensures AccountOf(cfg.needsWhitespace, p) == Spaced(cfg.needsWhitespace, Grammar.AfterKey(AccountOf(cfg.needsWhitespace, from), p.key), [])
    ensures var shape := ShapeOf(cfg, from);
            && shape.state == ExpectKey && shape.dups == Noted(cfg, from.outer, Keys(from.names))
            && ShapeOf(cfg, p) == Shape(shape.stack, ExpectColon, false, Noted(cfg, from.outer, Keys(from.names) + {Decode(p.key)}))
    ensures PartsFit(cfg, p) == (PartsFit(cfg, from) && KeyFits(cfg, from.names, p.key))
  {
    hide Spaced, Opened, NextMember, KeyFits, MembersFit, Decode, Grammar.AfterKey, IsContent, Keys, Noted;
  }

  lemma KeyNoted(cfg: Config, outer: Hole, keys: set<Bytes>, key: Bytes)
    ensures cfg.rejectDuplicates && key in keys ==> NoteKey(cfg, Noted(cfg, outer, keys), key).None?
    ensures !(cfg.rejectDuplicates && key in keys) ==> NoteKey(cfg, Noted(cfg, outer, keys), key) == Some(Noted(cfg, outer, keys + {key}))
  {
    hide Dups;
    assert cfg.rejectDuplicates ==> (Dups(cfg, outer) + [keys])[..|Dups(cfg, outer)|] == Dups(cfg, outer);
  }

  lemma ScalarMoves(cfg: Config, h: Hole, v: Value, rest: Bytes, capacity: nat)
    requires v.Literal? || v.Str? || v.Number?
    requires Settled(Done(h, v, []), rest)
    ensures Moves(cfg, Done(h, v, []), rest, capacity)
  {
    hide End, KeysFit, PrefixKeysShort, At, HoleAccount, HoleFits, Stack, Dups, IsContent, Decode, WordText, PosOf,
      NumberLaws.Text, NumberLaws.Meaning, NumberLaws.AfterToken, NumberLaws.WellFormed;
    var a, shape := HoleAccount(cfg.needsWhitespace, h), ShapeOf(cfg, Awaiting(h));
    SpacedNone(cfg.needsWhitespace, After(cfg.needsWhitespace, a, v));
    match v
    case Literal(w) => LiteralRun(cfg, shape, a, w, rest, capacity);
    case Number(t) => NumberRun(cfg, shape, a, t, rest, capacity);
    case Str(raw) =>
      StringRun(cfg, shape, a, raw, rest, capacity);
      assert a.text + ([QUOTE] + raw + [QUOTE]) == a.text + [QUOTE] + raw + [QUOTE];
  }

  lemma StepMoves(cfg: Config, p: Prefix, rest: Bytes, capacity: nat)
    requires p != START && Settled(p, rest)
    ensures Moves(cfg, p, rest, capacity)
  {
    hide Moves;
    if Trailing(p) != [] {
      SpaceMoves(cfg, p, rest, capacity);
    } else {
      match p
      case Awaiting(Elem(outer, NoItems, _)) => OpenMoves(cfg, outer, InArray, rest, capacity);
      case Awaiting(Elem(outer, Items(init, last), _)) => CommaMoves(cfg, p, LastStep(p).before, rest, capacity);
      case Awaiting(Field(outer, names, before, key, mid, _)) => ColonMoves(cfg, outer, names, before, key, mid, rest, capacity);
      case AwaitingKey(outer, NoMembers, _) => OpenMoves(cfg, outer, InObject, rest, capacity);
      case AwaitingKey(outer, Members(init, last), _) => CommaMoves(cfg, p, LastStep(p).before, rest, capacity);
      case AwaitingColon(outer, names, before, key, _) => KeyMoves(cfg, outer, names, before, key, rest, capacity);
      case Done(h, v, _) =>
        if v.Literal? || v.Str? || v.Number? {
          ScalarMoves(cfg, h, v, rest, capacity);
        } else {
          CloseMoves(cfg, h, v, LastStep(p).before, if v.EmptyArray? || v.Array? then InArray else InObject, rest, capacity);
        }
    }
  }

  // ---------- Reaching every prefix, and nothing else ----------

  /** Whatever may follow a value ends a number. */
  lemma StepSettles(p: Prefix, rest: Bytes)
    requires p != START
    ensures Settled(LastStep(p).before, LastStep(p).bytes + rest)
  {
    var from := LastStep(p).before;
    if from.Done? && from.value.Number? && from.space == [] {
      NumberLaws.ReadToken(from.value.numeral);
      hide NumberLaws.AfterToken, NumberLaws.Text, NumberLaws.Read, NumberLaws.Meaning, NumberLaws.WellFormed;
      AfterNumber(p, rest);
      hide LastStep;
      EndsNumberEnds(NumberLaws.AfterToken(from.value.numeral), LastStep(p).bytes + rest);
    }
  }

  lemma AfterNumber(p: Prefix, rest: Bytes)
    requires p != START && LastStep(p).before.Done? && LastStep(p).before.value.Number?
    ensures EndsNumber(LastStep(p).bytes + rest)
  {
    hide NumberLaws.Text, NumberLaws.WellFormed;
  }

  /** The whole text of a prefix takes the machine from its initial state to the
      prefix's, or is refused, if it goes beyond a limit. */
  lemma {:induction false} Reaches(cfg: Config, p: Prefix, rest: Bytes, capacity: nat)
    requires Settled(p, rest)
    ensures End(cfg, INITIAL, AccountOf(cfg.needsWhitespace, p).text + rest)
         == if PrefixFits(cfg, p) then End(cfg, StateOf(cfg, p), rest) else Option.None
    ensures PrefixKeysShort(p, capacity) ==>
              (KeysFit(cfg, INITIAL, AccountOf(cfg.needsWhitespace, p).text + rest, capacity)
               <==> (PrefixFits(cfg, p) ==> KeysFit(cfg, StateOf(cfg, p), rest, capacity)))
    decreases |AccountOf(cfg.needsWhitespace, p).text|
  {
    hide End, KeysFit, AccountOf, StateOf, PrefixFits, LastStep, Settled, PrefixKeysShort;
    if p == START {
      StartIsInitial(cfg);
      assert [] + rest == rest;
    } else {
      var step := LastStep(p);
      StepMoves(cfg, p, rest, capacity);
      StepSettles(p, rest);
      Reaches(cfg, step.before, step.bytes + rest, capacity);
      if PrefixKeysShort(p, capacity) {
        KeysShortBefore(p, capacity);
      }
      Assoc(AccountOf(cfg.needsWhitespace, step.before).text, step.bytes, rest);
    }
  }

  lemma StartIsInitial(cfg: Config)
    ensures StateOf(cfg, START) == INITIAL && PrefixFits(cfg, START) && AccountOf(cfg.needsWhitespace, START).text == []
  {
  }

  // ---------- Soundness ----------

  /** What a byte that is taken says of the prefix before it. */
  lemma FirstByte(cfg: Config, p: Prefix, s: Bytes)
    requires s != [] && End(cfg, StateOf(cfg, p), s).Some?
    ensures var b, shape := s[0], ShapeOf(cfg, p);
            && (b == COMMA ==> shape.state == AfterValue && shape.stack != [])
            && (b == COLON ==> shape.state == ExpectColon)
            && (b == LBRACE || b == LBRACKET ==> shape.state == ExpectValue)
            && (b == RBRACE ==> Machine.Top(shape.stack) == Some(InObject) && !shape.afterComma
                                && (shape.state == ExpectKey || shape.state == AfterValue))
            && (b == RBRACKET ==> Machine.Top(shape.stack) == Some(InArray) && !shape.afterComma
                                  && (shape.state == ExpectValue || shape.state == AfterValue))
            && (IsWhitespace(b) || b in {QUOTE, COMMA, COLON, LBRACE, RBRACE, LBRACKET, RBRACKET, 0x74, 0x66, 0x6E, MINUS} || IsDigit(b))
  {
    hide Run, AccountOf, ShapeOf, PosOf;
    if !Unit(cfg, StateOf(cfg, p), s).Go? {
      EndFails(cfg, StateOf(cfg, p), s);
    }
  }

  /** The prefix whose last step is the token at the front of what is accepted. */
  lemma NextPrefix(cfg: Config, from: Prefix, s: Bytes) returns (p: Prefix, rest: Bytes)
    requires s != [] && End(cfg, StateOf(cfg, from), s).Some?
    ensures p != START && LastStep(p).before == from && s == LastStep(p).bytes + rest && Settled(p, rest)
  {
    hide End, KeysFit, PrefixKeysShort, At, AccountOf;
    FirstByte(cfg, from, s);
    var b := s[0];
    rest := s[1..];
    assert s == [b] + rest;
    if IsWhitespace(b) {
      p := WithTrailing(from, Trailing(from) + [b]);
      TrailingKeeps(cfg, from, Trailing(from) + [b]);
      assert Trailing(p)[..|Trailing(from)|] == Trailing(from);
    } else if b == QUOTE {
      p, rest := NextString(cfg, from, s);
    } else if b == COMMA || b == COLON {
      p := NextSeparator(cfg, from, b);
    } else if b == LBRACE {
      p := AwaitingKey(from.hole, NoMembers, []);
    } else if b == LBRACKET {
      p := Awaiting(Elem(from.hole, NoItems, []));
    } else if b == RBRACE || b == RBRACKET {
      p := NextClose(cfg, from, b);
    } else if b == MINUS || IsDigit(b) {
      var t;
      t, rest := NumeralOf(cfg, ShapeOf(cfg, from), AccountOf(cfg.needsWhitespace, from), s);
      p := Done(from.hole, Number(t), []);
    } else {
      var w := LiteralOf(cfg, ShapeOf(cfg, from), AccountOf(cfg.needsWhitespace, from), s);
      p := Done(from.hole, Literal(w), []);
      rest := s[|WordText(w)|..];
    }
  }

  lemma NextString(cfg: Config, from: Prefix, s: Bytes) returns (p: Prefix, rest: Bytes)
    requires s != [] && s[0] == QUOTE && End(cfg, StateOf(cfg, from), s).Some?
    ensures p != START && LastStep(p).before == from && s == LastStep(p).bytes + rest && Settled(p, rest)
  {
    hide End, KeysFit, PrefixKeysShort, At, AccountOf;
    var raw;
    if ShapeOf(cfg, from).state == ExpectKey {
      raw, rest := KeyOf(cfg, ShapeOf(cfg, from), AccountOf(cfg.needsWhitespace, from), s);
      p := AwaitingColon(from.outer, from.names, from.before, raw, []);
    } else {
      raw, rest := StringOf(cfg, ShapeOf(cfg, from), AccountOf(cfg.needsWhitespace, from), s);
      p := Done(from.hole, Str(raw), []);
    }
  }

  lemma NextSeparator(cfg: Config, from: Prefix, b: Byte) returns (p: Prefix)
    requires b == COMMA || b == COLON
    requires b == COMMA ==> ShapeOf(cfg, from).state == AfterValue && ShapeOf(cfg, from).stack != []
    requires b == COLON ==> ShapeOf(cfg, from).state == ExpectColon
    ensures p != START && LastStep(p) == Step(from, [b]) && !p.Done?
  {
    if b == COLON {
      p := Awaiting(Field(from.outer, from.names, from.before, from.key, from.mid, []));
    } else {
      match from.hole
      case Elem(outer, init, before) => p := Awaiting(Elem(outer, Items(init, Item(before, from.value, from.space)), []));
      case Field(outer, names, before, key, mid, after) =>
        p := AwaitingKey(outer, Members(names, Member(before, key, mid, Item(after, from.value, from.space))), []);
    }
  }

  lemma NextClose(cfg: Config, from: Prefix, b: Byte) returns (p: Prefix)
    requires b == RBRACE || b == RBRACKET
    requires var shape := ShapeOf(cfg, from);
             && Machine.Top(shape.stack) == Some(if b == RBRACE then InObject else InArray) && !shape.afterComma
             && (shape.state == AfterValue || shape.state == if b == RBRACE then ExpectKey else ExpectValue)
    ensures p != START && LastStep(p) == Step(from, [b]) && p.Done? && !p.value.Number?
  {
    hide Dups, Keys, Decode;
    match from
    case Done(Elem(outer, init, before), v, space) => p := Done(outer, Array(init, Item(before, v, space)), []);
    case Done(Field(outer, names, before, key, mid, after), v, space) =>
      p := Done(outer, Object(names, Member(before, key, mid, Item(after, v, space))), []);
    case Awaiting(Elem(outer, _, before)) => p := Done(outer, EmptyArray(before), []);
    case AwaitingKey(outer, _, before) => p := Done(outer, EmptyObject(before), []);
    case Awaiting(Field(outer, names, before, key, mid, after)) => assert false;
  }

  /** Whatever is accepted from a prefix on completes it to a prefix, whose state is the machine's. */
  lemma {:induction false} Completes(cfg: Config, from: Prefix, s: Bytes) returns (p: Prefix)
    requires PrefixFits(cfg, from) && End(cfg, StateOf(cfg, from), s).Some?
    ensures PrefixFits(cfg, p) && AccountOf(cfg.needsWhitespace, p).text == AccountOf(cfg.needsWhitespace, from).text + s
    ensures End(cfg, StateOf(cfg, from), s) == Some(StateOf(cfg, p))
    decreases |s|
  {
    hide AccountOf, ShapeOf, LastStep, PrefixFits, Settled;
    if s == [] {
      p := from;
      assert AccountOf(cfg.needsWhitespace, p).text + [] == AccountOf(cfg.needsWhitespace, p).text;
    } else {
      hide End, StateOf;
      var next, rest := NextPrefix(cfg, from, s);
      StepMoves(cfg, next, rest, 0);
      p := Completes(cfg, next, rest);
      Assoc(AccountOf(cfg.needsWhitespace, from).text, LastStep(next).bytes, rest);
    }
  }

  // ---------- Documents ----------

  /** A document is whole when nothing is open: no other check is needed. */
  lemma WholeDocument(cfg: Config, p: Prefix)
    ensures var st := StateOf(cfg, p);
            st.seen && st.stack == [] <==> p.Done? && p.hole.Top?
    ensures StateOf(cfg, p).seen && StateOf(cfg, p).stack == [] ==> StateOf(cfg, p).state == AfterValue
  {
    hide EndsInCr, PosOf;
    if p.Done? && p.hole.Top? {
      AfterCounts(cfg.needsWhitespace, HoleAccount(cfg.needsWhitespace, p.hole), p.value);
    }
  }

  lemma AfterCounts(ws: bool, a: Account, v: Value)
    ensures After(ws, a, v).tokens > 0
  {
    hide PosOf, Decode, IsContent;
  }

  predicate ItemFits(cfg: Config, item: Item) {
    Fits(cfg, item.value, 0) && TokensFit(cfg, AfterItem(cfg.needsWhitespace, NOTHING, item))
  }

  /** The verdict on a text: it is accepted exactly if it keeps the limits, and then
      this is what is told. */
  lemma VerdictOnText(cfg: Config, item: Item)
    ensures Verdict(cfg, Text(item))
         == if ItemFits(cfg, item) then Some(AfterItem(cfg.needsWhitespace, NOTHING, item).log) else Option.None
  {
    var ws := cfg.needsWhitespace;
    var p := Done(Top(item.before), item.value, item.after);
    PrefixOfItem(ws, item);
    if item.value.Number? {
      NumberLaws.ReadToken(item.value.numeral);
      EndsNumberEnds(NumberLaws.AfterToken(item.value.numeral), []);
    }
    hide Text, AfterItem, AccountOf, PrefixFits, StateOf, NumberLaws.AfterToken, NumberLaws.Text, NumberLaws.Read, NumberLaws.Meaning;
    Reaches(cfg, p, [], 0);
    assert Text(item) + [] == Text(item);
    WholeDocument(cfg, p);
    EndOfPrefix(cfg, p);
    ItemFitsPrefix(cfg, item);
    VerdictIsEnd(cfg, Text(item));
  }

  /** Where each key fits the ring with its quotes, none is too long for it. */
  lemma ShortKeysFit(cfg: Config, item: Item, capacity: nat)
    requires KeysShort(item.value, capacity)
    ensures KeysFit(cfg, INITIAL, Text(item), capacity)
  {
    var p := Done(Top(item.before), item.value, item.after);
    PrefixOfItem(cfg.needsWhitespace, item);
    if item.value.Number? {
      NumberLaws.ReadToken(item.value.numeral);
      EndsNumberEnds(NumberLaws.AfterToken(item.value.numeral), []);
    }
    hide Text, AfterItem, AccountOf, PrefixFits, StateOf, End, NumberLaws.AfterToken, NumberLaws.Text, NumberLaws.Read, NumberLaws.Meaning;
    Reaches(cfg, p, [], capacity);
    assert Text(item) + [] == Text(item);
  }

  lemma NoKeysYet(n: int)
    ensures PrefixKeysShort(START, n)
  {
  }

  lemma KeysShortAfter(p: Prefix, n: int)
    requires p != START && PrefixKeysShort(LastStep(p).before, n)
    requires p.AwaitingColon? && p.mid == [] ==> |p.key| + 2 <= n
    ensures PrefixKeysShort(p, n)
  {
  }

  lemma LastKeyIsShort(cfg: Config, p: Prefix, rest: Bytes, capacity: nat)
    requires p.AwaitingColon? && p.mid == [] && PrefixFits(cfg, p)
    requires KeysFit(cfg, StateOf(cfg, LastStep(p).before), LastStep(p).bytes + rest, capacity)
    ensures |p.key| + 2 <= capacity
  {
    hide KeysFit, AccountOf, HoleFits, MembersFit, Decode, IsContent, Stack, Noted, PosOf, EndsInCr;
    if capacity < |p.key| + 2 {
      KeyOutOfSight(cfg, StateOf(cfg, LastStep(p).before), p.key, rest, capacity);
    }
  }

  /** Where keys fit in what keeps the limits, each is no longer than the ring. */
  lemma {:induction false} FitKeysAreShort(cfg: Config, p: Prefix, rest: Bytes, capacity: nat)
    requires Settled(p, rest) && PrefixFits(cfg, p)
    requires KeysFit(cfg, INITIAL, AccountOf(cfg.needsWhitespace, p).text + rest, capacity)
    ensures PrefixKeysShort(p, capacity)
    decreases |AccountOf(cfg.needsWhitespace, p).text|
  {
    hide End, KeysFit, AccountOf, StateOf, PrefixFits, LastStep, Settled, PrefixKeysShort;
    if p == START {
      NoKeysYet(capacity);
    } else {
      var step := LastStep(p);
      StepMoves(cfg, p, rest, capacity);
      StepSettles(p, rest);
      Assoc(AccountOf(cfg.needsWhitespace, step.before).text, step.bytes, rest);
      FitKeysAreShort(cfg, step.before, step.bytes + rest, capacity);
      if p.AwaitingColon? && p.mid == [] {
        Reaches(cfg, step.before, step.bytes + rest, capacity);
        LastKeyIsShort(cfg, p, rest, capacity);
      }
      KeysShortAfter(p, capacity);
    }
  }

  /** A ring is large enough for a text that is accepted exactly if each of its keys
      fits it with its quotes. */
  lemma FittingIsShort(cfg: Config, item: Item, capacity: nat)
    requires Verdict(cfg, Text(item)).Some?
    ensures KeysFit(cfg, INITIAL, Text(item), capacity) <==> KeysShort(item.value, capacity)
  {
    hide Verdict, KeysFit, Text, AfterItem, End, ItemFits, NumberLaws.AfterToken, NumberLaws.Text, NumberLaws.Read, NumberLaws.Meaning;
    var p := Done(Top(item.before), item.value, item.after);
    VerdictOnText(cfg, item);
    PrefixOfItem(cfg.needsWhitespace, item);
    ItemFitsPrefix(cfg, item);
    if item.value.Number? {
      NumberLaws.ReadToken(item.value.numeral);
      EndsNumberEnds(NumberLaws.AfterToken(item.value.numeral), []);
    }
    hide AccountOf, PrefixFits;
    assert Text(item) + [] == Text(item);
    if KeysShort(item.value, capacity) {
      ShortKeysFit(cfg, item, capacity);
    } else if KeysFit(cfg, INITIAL, Text(item), capacity) {
      FitKeysAreShort(cfg, p, [], capacity);
    }
  }

  lemma PrefixOfItem(ws: bool, item: Item)
    ensures AccountOf(ws, Done(Top(item.before), item.value, item.after)) == AfterItem(ws, NOTHING, item)
    ensures AfterItem(ws, NOTHING, item).text == Text(item)
  {
    hide After;
    AfterItemText(ws, NOTHING, item);
  }

  lemma ItemFitsPrefix(cfg: Config, item: Item)
    ensures PrefixFits(cfg, Done(Top(item.before), item.value, item.after)) == ItemFits(cfg, item)
  {
    hide AfterItem, AccountOf;
    PrefixOfItem(cfg.needsWhitespace, item);
  }

  lemma EndOfPrefix(cfg: Config, p: Prefix)
    ensures End(cfg, StateOf(cfg, p), []) == Some(StateOf(cfg, p))
    ensures StateOf(cfg, p).log == AccountOf(cfg.needsWhitespace, p).log
  {
  }

  lemma VerdictIsEnd(cfg: Config, s: Bytes)
    ensures var end := End(cfg, INITIAL, s);
            Verdict(cfg, s) == if end.Some? && end.value.seen && end.value.stack == [] then Some(end.value.log) else Option.None
  {
    FinishKeeps(cfg, INITIAL, s);
  }

  lemma FinishKeeps(cfg: Config, st: St, s: Bytes)
    ensures var r := Run(cfg, st, s);
            r.Stop? && Finish(r.st).Some? ==> Finish(r.st).value.seen == r.st.seen && Finish(r.st).value.stack == r.st.stack
  {
    hide Run;
  }

  /** Whatever is accepted is a text that keeps the limits. */
  lemma TextOfAccepted(cfg: Config, s: Bytes) returns (item: Item)
    requires Verdict(cfg, s).Some?
    ensures s == Text(item) && ItemFits(cfg, item)
  {
    hide Text, AfterItem, PrefixFits, StateOf, Verdict, End, ItemFits;
    StartIsInitial(cfg);
    VerdictIsEnd(cfg, s);
    var p := Completes(cfg, START, s);
    WholeDocument(cfg, p);
    item := Item(p.hole.before, p.value, p.space);
    PrefixOfItem(cfg.needsWhitespace, item);
    ItemFitsPrefix(cfg, item);
    assert [] + s == s;
  }

  // ---------- Every prefix can be completed ----------

  /** Some way to complete `p`: what is open is closed, what is due is `null`. */
  function Completion(p: Prefix): Prefix
    decreases Depth(p), Rank(p)
  {
    match p
    case Awaiting(h) => Completion(Done(h, Literal(Null), []))
    case Done(Top(_), _, _) => p
    case Done(Elem(outer, init, before), v, space) => Completion(Done(outer, Array(init, Item(before, v, space)), []))
    case Done(Field(outer, names, before, key, mid, after), v, space) =>
      Completion(Done(outer, Object(names, Member(before, key, mid, Item(after, v, space))), []))
    case AwaitingKey(outer, NoMembers, before) => Completion(Done(outer, EmptyObject(before), []))
    case AwaitingKey(outer, names, before) => Completion(AwaitingColon(outer, names, before, [], []))
    case AwaitingColon(outer, names, before, key, mid) => Completion(Awaiting(Field(outer, names, before, key, mid, [])))
  }

  function Depth(p: Prefix): nat {
    match p
    case Awaiting(h) => |Stack(h)|
    case Done(h, _, _) => |Stack(h)|
    case _ => |Stack(p.outer)| + 1
  }

  function Rank(p: Prefix): nat {
    match p
    case Done(_, _, _) => 0
    case Awaiting(_) => 1
    case AwaitingColon(_, _, _, _, _) => 2
    case AwaitingKey(_, _, _) => 3
  }

  const UNLIMITED := Limits(Option.None, Option.None, Option.None, Option.None, Option.None, Option.None)

  /** Completing only adds text, and breaks no rule if there are no limits and
      repeated keys are allowed. */
  lemma {:induction false} CompletionAdds(cfg: Config, p: Prefix)
    requires cfg.limits == UNLIMITED && !cfg.rejectDuplicates && PartsFit(cfg, p)
    ensures var q := Completion(p);
            && q.Done? && q.hole.Top? && PartsFit(cfg, q)
            && AccountOf(cfg.needsWhitespace, p).text <= AccountOf(cfg.needsWhitespace, q).text
    decreases Depth(p), Rank(p), 1
  {
    hide AccountOf, Decode, End;
    match p
    case Done(Top(_), _, _) =>
    case Awaiting(h) => AddsStep(cfg, p, Done(h, Literal(Null), []));
    case Done(Elem(outer, init, before), v, space) =>
      AddsStep(cfg, p, Done(outer, Array(init, Item(before, v, space)), []));
    case Done(Field(outer, names, before, key, mid, after), v, space) =>
      AddsStep(cfg, p, Done(outer, Object(names, Member(before, key, mid, Item(after, v, space))), []));
    case AwaitingKey(outer, NoMembers, before) => AddsStep(cfg, p, Done(outer, EmptyObject(before), []));
    case AwaitingKey(outer, names, before) =>
      EmptyKeyFits(cfg, names);
      AddsStep(cfg, p, AwaitingColon(outer, names, before, [], []));
    case AwaitingColon(outer, names, before, key, mid) =>
      AddsStep(cfg, p, Awaiting(Field(outer, names, before, key, mid, [])));
  }

  lemma EmptyKeyFits(cfg: Config, names: Members)
    requires cfg.limits == UNLIMITED && !cfg.rejectDuplicates
    ensures KeyFits(cfg, names, [])
  {
  }

  lemma AddsStep(cfg: Config, p: Prefix, next: Prefix)
    requires next != START && LastStep(next).before == p && Completion(p) == Completion(next)
    requires cfg.limits == UNLIMITED && !cfg.rejectDuplicates && PartsFit(cfg, next)
    requires Depth(next) < Depth(p) || (Depth(next) == Depth(p) && Rank(next) < Rank(p))
    ensures var q := Completion(p);
            && q.Done? && q.hole.Top? && PartsFit(cfg, q)
            && AccountOf(cfg.needsWhitespace, p).text <= AccountOf(cfg.needsWhitespace, q).text
    decreases Depth(next), Rank(next), 2
  {
    hide AccountOf, PartsFit, LastStep, Completion;
    StepMoves(cfg, next, [], 0);
    CompletionAdds(cfg, next);
  }

  /** With no limits, whatever has been taken up to the end of a token can be
      completed to a document: an error is found at the first token it can be. */
  lemma TakenCanBeCompleted(cfg: Config, s: Bytes) returns (more: Bytes)
    requires cfg.limits == UNLIMITED && !cfg.rejectDuplicates && End(cfg, INITIAL, s).Some?
    ensures Verdict(cfg, s + more).Some?
  {
    hide AccountOf, PartsFit, StateOf, Verdict, End, Completion, Text, AfterItem;
    StartIsInitial(cfg);
    var p := Completes(cfg, START, s);
    assert [] + s == s;
    CompletionAdds(cfg, p);
    var q := Completion(p);
    var item := Item(q.hole.before, q.value, q.space);
    PrefixOfItem(cfg.needsWhitespace, item);
    ItemFitsPrefix(cfg, item);
    more := Text(item)[|s|..];
    assert s + more == Text(item);
    VerdictOnText(cfg, item);
  }
}
