// What is written parses back to what was written.
module RoundTrip {
  import opened Base
  import opened Events
  import opened Machine
  import opened Layouts
  import opened WrittenTrees
  import Positions
  import StringGrammar
  import Numbers
  import NumberLaws
  import Documents
  import Acceptance
  import Escaping
  import Writers
  import Prefixes
  import G = Grammar

  const NOWHERE := Pos(0, 0)

  function Somewhere(e: Event): Event {
    match e
    case StartObject(_) => StartObject(NOWHERE)
    case EndObject(_) => EndObject(NOWHERE)
    case StartArray(_) => StartArray(NOWHERE)
    case EndArray(_) => EndArray(NOWHERE)
    case Key(name, _) => Event.Key(name, NOWHERE)
    case StartString(_) => Event.StartString(NOWHERE)
    case EndString(_) => Event.EndString(NOWHERE)
    case NumberValue(number, _) => NumberValue(number, NOWHERE)
    case BooleanValue(value, _) => BooleanValue(value, NOWHERE)
    case NullValue(_) => NullValue(NOWHERE)
    case _ => e
  }

  /** Events without their positions, and without whitespace. */
  function Erased(log: Log): Log {
    if log == [] then []
    else
      var last := log[|log| - 1];
      Erased(log[..|log| - 1]) + if last.Whitespace? then [] else [Somewhere(last)]
  }

  lemma ErasedSnoc(log: Log, e: Event)
    ensures Erased(log + [e]) == Erased(log) + if e.Whitespace? then [] else [Somewhere(e)]
  {
    assert (log + [e])[..|log|] == log;
  }

  lemma ErasedSpace(ws: bool, a: G.Account, space: G.Space)
    ensures Erased(G.Spaced(ws, a, space).log) == Erased(a.log)
  {
    var last := |a.log| - 1;
    if ws && space != [] {
      ErasedSnoc(a.log, Whitespace(space));
      if last >= 0 && a.log[last].Whitespace? {
        ErasedSnoc(a.log[..last], Whitespace(a.log[last].space + space));
      }
    }
  }

  /** The integer a caller gets back: as narrow as its magnitude allows. */
  function Normal(n: int): Numbers.Number {
    if -0x8000_0000 <= n <= 0x7FFF_FFFF then Numbers.I32(n)
    else if -Numbers.I64_MAX <= n <= Numbers.I64_MAX then Numbers.I64(n)
    else Numbers.BigInt(Writers.Decimal(n))
  }

  /** The events that stand for some data. */
  function EventsOf(d: Data): Log {
    match d
    case Null => [NullValue(NOWHERE)]
    case Bool(b) => [BooleanValue(b, NOWHERE)]
    case Integer(n) => [NumberValue(Normal(n), NOWHERE)]
    case Text(t) => [Event.StartString(NOWHERE)] + (if t == [] then [] else [Event.Content(t)]) + [Event.EndString(NOWHERE)]
    case List(es) => [StartArray(NOWHERE)] + ElementEvents(es) + [EndArray(NOWHERE)]
    case Dict(es) => [StartObject(NOWHERE)] + EntryEvents(es) + [EndObject(NOWHERE)]
  }

  function ElementEvents(es: DataList): Log {
    match es
    case NoData => []
    case MoreData(init, last) => ElementEvents(init) + EventsOf(last)
  }

  function EntryEvents(es: Entries): Log {
    match es
    case NoEntries => []
    case Entries(init, name, value) => EntryEvents(init) + [Event.Key(name, NOWHERE)] + EventsOf(value)
  }

  /** An integer's digits, read as a number token, give the integer back. */
  lemma IntegerComesBack(n: int)
    ensures NumberLaws.Meaning(NumeralOf(n)) == Normal(n)
  {
    var magnitude := if n < 0 then -n else n;
    NumberLaws.ValueOfDecimal(magnitude);
    hide Numbers.Value, Numbers.Decimal, NumberLaws.Canonical, NumberLaws.IntegerOf, Normal;
    IntegerNormal(n, Numbers.Decimal(magnitude));
  }

  lemma IntegerNormal(n: int, whole: Bytes)
    requires AllDigits(whole) && Numbers.Value(whole) == (if n < 0 then -n else n)
    requires Writers.Decimal(n) == NumberLaws.Sign(n < 0, whole)
    ensures NumberLaws.IntegerOf(n < 0, whole) == Normal(n)
  {
    hide Numbers.Value, Writers.Decimal, NumberLaws.Sign;
  }

  /** An integer that fits an i64 is reported as one unless it is the least: the
      overflow test looks at the magnitude alone. */
  lemma OnlyTheLeastIsBig(n: int)
    requires -0x8000_0000_0000_0000 <= n <= 0x7FFF_FFFF_FFFF_FFFF
    ensures NumberLaws.Meaning(NumeralOf(n)).BigInt? <==> n == -0x8000_0000_0000_0000
  {
    hide NumberLaws.Meaning, NumeralOf;
    IntegerComesBack(n);
  }

  // ---------- What is told of the written tree ----------

  lemma {:induction false} Tells(ws: bool, a: G.Account, indent: Option<IndentConfig>, depth: nat, d: Data)
    requires Proper(d)
    ensures Erased(G.After(ws, a, Render(indent, depth, d)).log) == Erased(a.log) + EventsOf(d)
    decreases d, 1
  {
    hide Erased, G.AfterWord, G.AfterNumeral, G.AfterString, RenderList, RenderDict, NumeralOf, NewLine;
    match d
    case Null => TellsWord(a, G.Null);
    case Bool(b) => TellsWord(a, if b then G.True else G.False);
    case Integer(n) => TellsInteger(a, n);
    case Text(t) => TellsText(a, t);
    case List(es) => TellsList(ws, a, indent, depth, es);
    case Dict(es) => TellsDict(ws, a, indent, depth, es);
  }

  lemma TellsWord(a: G.Account, w: G.Word)
    ensures Erased(G.AfterWord(a, w).log)
         == Erased(a.log) + [if w.Null? then NullValue(NOWHERE) else BooleanValue(w.True?, NOWHERE)]
  {
    hide Erased, Positions.PosOf, G.WordText;
    var at := Positions.PosOf(a.text + G.WordText(w));
    ErasedSnoc(a.log, if w.Null? then NullValue(at) else BooleanValue(w.True?, at));
  }

  lemma TellsInteger(a: G.Account, n: int)
    ensures Erased(G.AfterNumeral(a, NumeralOf(n)).log) == Erased(a.log) + [NumberValue(Normal(n), NOWHERE)]
  {
    hide Erased, Normal, NumberLaws.Meaning, NumberLaws.Text, NumeralOf, Positions.PosOf;
    IntegerComesBack(n);
    ErasedSnoc(a.log, NumberValue(Normal(n), Positions.PosOf(a.text + NumberLaws.Text(NumeralOf(n)))));
  }

  lemma TellsText(a: G.Account, t: Bytes)
    requires Proper(Text(t))
    ensures Erased(G.AfterString(a, ContentOfText(t)).log) == Erased(a.log) + EventsOf(Text(t))
  {
    hide Erased, StringGrammar.Decode, StringGrammar.IsContent, JoinContent;
    EscapedDecodes(t);
    var start := a.text + [QUOTE];
    var end := start + ContentOfText(t) + [QUOTE];
    StringEvents(a.log, Positions.PosOf(start), t, Positions.PosOf(end));
  }

  lemma StringEvents(log: Log, start: Pos, t: Bytes, end: Pos)
    ensures Erased(JoinContent(log + [Event.StartString(start)], t) + [Event.EndString(end)])
         == Erased(log) + ([Event.StartString(NOWHERE)] + (if t == [] then [] else [Event.Content(t)]) + [Event.EndString(NOWHERE)])
  {
    hide Erased;
    var started := log + [Event.StartString(start)];
    ErasedSnoc(log, Event.StartString(start));
    ErasedSnoc(started, Event.Content(t));
    ErasedSnoc(JoinContent(started, t), Event.EndString(end));
  }

  lemma TellsList(ws: bool, a: G.Account, indent: Option<IndentConfig>, depth: nat, es: DataList)
    requires ProperElements(es)
    ensures Erased(G.After(ws, a, RenderList(indent, depth, es)).log) == Erased(a.log) + EventsOf(List(es))
    decreases es, 2
  {
    hide Erased, G.Spaced;
    var opening := G.Opened(a, InArray);
    TellsBracket(a, InArray);
    match es
    case NoData =>
      var inside := G.Spaced(ws, opening, NewLine(indent, depth));
      ErasedSpace(ws, opening, NewLine(indent, depth));
      TellsBracket(inside, InArray);
    case MoreData(init, last) =>
      var next := G.NextItem(ws, opening, RenderElements(indent, depth + 1, init));
      TellsElements(ws, opening, indent, depth + 1, init);
      var item := G.Item(NewLine(indent, depth + 1), Render(indent, depth + 1, last), NewLine(indent, depth));
      TellsItem(ws, next, indent, depth + 1, last, item);
      TellsBracket(G.AfterItem(ws, next, item), InArray);
      ListIs(ws, a, indent, depth, init, last);
      hide *;
      ListEvents(Erased(a.log), init, last);
  }

  lemma ListIs(ws: bool, a: G.Account, indent: Option<IndentConfig>, depth: nat, init: DataList, last: Data)
    requires ProperElements(init) && Proper(last)
    ensures G.After(ws, a, RenderList(indent, depth, MoreData(init, last)))
         == G.Closed(G.AfterItem(ws, G.NextItem(ws, G.Opened(a, InArray), RenderElements(indent, depth + 1, init)),
                                 G.Item(NewLine(indent, depth + 1), Render(indent, depth + 1, last), NewLine(indent, depth))), InArray)
  {
    hide G.NextItem, G.AfterItem, G.Opened, G.Closed, NewLine, Render;
  }

  lemma DictIs(ws: bool, a: G.Account, indent: Option<IndentConfig>, depth: nat, init: Entries, name: Bytes, value: Data)
    requires ProperEntries(init) && Proper(Text(name)) && Proper(value)
    ensures G.After(ws, a, RenderDict(indent, depth, Entries(init, name, value)))
         == G.Closed(G.AfterMember(ws, G.NextMember(ws, G.Opened(a, InObject), RenderEntries(indent, depth + 1, init)),
                                   MemberOf(indent, depth + 1, name, value, NewLine(indent, depth))), InObject)
  {
    hide G.NextMember, G.AfterMember, G.Opened, G.Closed, NewLine, Render, MemberOf;
  }

  lemma ListEvents(before: Log, init: DataList, last: Data)
    ensures before + [StartArray(NOWHERE)] + ElementEvents(init) + EventsOf(last) + [EndArray(NOWHERE)]
         == before + EventsOf(List(MoreData(init, last)))
  {
    var inner, event := ElementEvents(init), EventsOf(last);
    assert EventsOf(List(MoreData(init, last))) == [StartArray(NOWHERE)] + (inner + event) + [EndArray(NOWHERE)];
    hide *;
    Inside(before, [StartArray(NOWHERE)], inner, event, [EndArray(NOWHERE)]);
  }

  lemma Inside(before: Log, open: Log, inner: Log, last: Log, close: Log)
    ensures before + open + inner + last + close == before + (open + (inner + last) + close)
  {
  }

  lemma TellsBracket(a: G.Account, c: Context)
    ensures Erased(G.Opened(a, c).log) == Erased(a.log) + [if c.InObject? then StartObject(NOWHERE) else StartArray(NOWHERE)]
    ensures Erased(G.Closed(a, c).log) == Erased(a.log) + [if c.InObject? then EndObject(NOWHERE) else EndArray(NOWHERE)]
  {
    hide Erased;
    ErasedSnoc(a.log, G.Opened(a, c).log[|a.log|]);
    ErasedSnoc(a.log, G.Closed(a, c).log[|a.log|]);
  }

  lemma TellsItem(ws: bool, a: G.Account, indent: Option<IndentConfig>, depth: nat, d: Data, item: G.Item)
    requires Proper(d) && item.value == Render(indent, depth, d)
    ensures Erased(G.AfterItem(ws, a, item).log) == Erased(a.log) + EventsOf(d)
    decreases d, 2
  {
    hide Erased, G.Spaced, G.After;
    ErasedSpace(ws, a, item.before);
    Tells(ws, G.Spaced(ws, a, item.before), indent, depth, d);
    ErasedSpace(ws, G.After(ws, G.Spaced(ws, a, item.before), item.value), item.after);
  }

  lemma TellsElements(ws: bool, a: G.Account, indent: Option<IndentConfig>, depth: nat, es: DataList)
    requires ProperElements(es)
    ensures Erased(G.NextItem(ws, a, RenderElements(indent, depth, es)).log) == Erased(a.log) + ElementEvents(es)
    decreases es, 1
  {
    if es.MoreData? {
      hide Erased, Render, NewLine, G.AfterItem, EventsOf;
      var next := G.NextItem(ws, a, RenderElements(indent, depth, es.init));
      TellsElements(ws, a, indent, depth, es.init);
      var item := G.Item(NewLine(indent, depth), Render(indent, depth, es.last), []);
      TellsItem(ws, next, indent, depth, es.last, item);
      NextItemIs(ws, a, indent, depth, es);
      hide G.NextItem, RenderElements;
      Assoc(Erased(a.log), ElementEvents(es.init), EventsOf(es.last));
    }
  }

  lemma NextItemIs(ws: bool, a: G.Account, indent: Option<IndentConfig>, depth: nat, es: DataList)
    requires ProperElements(es) && es.MoreData?
    ensures G.NextItem(ws, a, RenderElements(indent, depth, es))
         == G.Punctuated(G.AfterItem(ws, G.NextItem(ws, a, RenderElements(indent, depth, es.init)),
                                     G.Item(NewLine(indent, depth), Render(indent, depth, es.last), [])), COMMA)
  {
    hide G.AfterItem, NewLine, Render;
  }

  lemma TellsDict(ws: bool, a: G.Account, indent: Option<IndentConfig>, depth: nat, es: Entries)
    requires ProperEntries(es)
    ensures Erased(G.After(ws, a, RenderDict(indent, depth, es)).log) == Erased(a.log) + EventsOf(Dict(es))
    decreases es, 2
  {
    hide Erased, G.Spaced;
    var opening := G.Opened(a, InObject);
    TellsBracket(a, InObject);
    match es
    case NoEntries =>
      var inside := G.Spaced(ws, opening, NewLine(indent, depth));
      ErasedSpace(ws, opening, NewLine(indent, depth));
      TellsBracket(inside, InObject);
    case Entries(init, name, value) =>
      var next := G.NextMember(ws, opening, RenderEntries(indent, depth + 1, init));
      TellsEntries(ws, opening, indent, depth + 1, init);
      var member := MemberOf(indent, depth + 1, name, value, NewLine(indent, depth));
      TellsMember(ws, next, indent, depth + 1, name, value, NewLine(indent, depth));
      TellsBracket(G.AfterMember(ws, next, member), InObject);
      DictIs(ws, a, indent, depth, init, name, value);
      hide *;
      DictEvents(Erased(a.log), init, name, value);
  }

  lemma DictEvents(before: Log, init: Entries, name: Bytes, value: Data)
    ensures before + [StartObject(NOWHERE)] + EntryEvents(init) + ([Event.Key(name, NOWHERE)] + EventsOf(value)) + [EndObject(NOWHERE)]
         == before + EventsOf(Dict(Entries(init, name, value)))
  {
    var inner, key, event := EntryEvents(init), [Event.Key(name, NOWHERE)], EventsOf(value);
    assert EventsOf(Dict(Entries(init, name, value))) == [StartObject(NOWHERE)] + (inner + key + event) + [EndObject(NOWHERE)];
    hide *;
    Assoc(inner, key, event);
    Inside(before, [StartObject(NOWHERE)], inner, key + event, [EndObject(NOWHERE)]);
  }

  lemma TellsMember(ws: bool, a: G.Account, indent: Option<IndentConfig>, depth: nat, name: Bytes, value: Data, after: G.Space)
    requires Proper(Text(name)) && Proper(value)
    ensures Erased(G.AfterMember(ws, a, MemberOf(indent, depth, name, value, after)).log)
         == Erased(a.log) + ([Event.Key(name, NOWHERE)] + EventsOf(value))
    decreases value, 3
  {
    hide Erased, G.Spaced, StringGrammar.Decode, StringGrammar.IsContent, EventsOf, Render, NewLine, G.AfterItem;
    EscapedDecodes(name);
    var m := MemberOf(indent, depth, name, value, after);
    var spaced := G.Spaced(ws, a, m.before);
    var keyed := G.AfterKey(spaced, m.key);
    ErasedSpace(ws, a, m.before);
    ErasedSnoc(spaced.log, keyed.log[|spaced.log|]);
    ErasedSpace(ws, keyed, m.mid);
    TellsItem(ws, G.AtMemberValue(ws, a, m.before, m.key, m.mid), indent, depth, value, m.item);
    Assoc(Erased(a.log), [Event.Key(name, NOWHERE)], EventsOf(value));
  }

  lemma TellsEntries(ws: bool, a: G.Account, indent: Option<IndentConfig>, depth: nat, es: Entries)
    requires ProperEntries(es)
    ensures Erased(G.NextMember(ws, a, RenderEntries(indent, depth, es)).log) == Erased(a.log) + EntryEvents(es)
    decreases es, 1
  {
    if es.Entries? {
      var next := G.NextMember(ws, a, RenderEntries(indent, depth, es.init));
      TellsEntries(ws, a, indent, depth, es.init);
      TellsMember(ws, next, indent, depth, es.name, es.value, []);
      hide Erased, Render, NewLine, G.AfterMember, EventsOf, MemberOf;
      EntriesSnoc(Erased(a.log), es);
    }
  }

  lemma EntriesSnoc(before: Log, es: Entries)
    requires es.Entries?
    ensures before + EntryEvents(es) == before + EntryEvents(es.init) + ([Event.Key(es.name, NOWHERE)] + EventsOf(es.value))
  {
  }

  // ---------- What a parser's settings ask of the data ----------

  /** Names short enough to be read, and, if that is asked for, distinct. */
  predicate Readable(cfg: Config, d: Data) {
    match d
    case List(es) => ReadableElements(cfg, es)
    case Dict(es) => ReadableEntries(cfg, es)
    case _ => true
  }

  predicate ReadableElements(cfg: Config, es: DataList) {
    es.MoreData? ==> ReadableElements(cfg, es.init) && Readable(cfg, es.last)
  }

  predicate ReadableEntries(cfg: Config, es: Entries) {
    es.Entries? ==>
      && ReadableEntries(cfg, es.init) && Readable(cfg, es.value)
      && |es.name| <= cfg.chunk && (cfg.rejectDuplicates ==> es.name !in NamesOf(es.init))
  }

  function NamesOf(es: Entries): set<Bytes> {
    match es
    case NoEntries => {}
    case Entries(init, name, _) => NamesOf(init) + {name}
  }

  /** The limits on nesting and on the written length of numbers, strings and names. */
  predicate WithinLimits(limits: Limits, d: Data, depth: nat) {
    match d
    case Integer(n) => |Writers.Decimal(n)| <= 1 || !Exceeds(|Writers.Decimal(n)|, limits.numberLength)
    case Text(t) => !Exceeds(|Escaping.Escaped(t)|, limits.stringLength)
    case List(es) => !Exceeds(depth + 1, limits.nestingDepth) && ElementsWithin(limits, es, depth + 1)
    case Dict(es) => !Exceeds(depth + 1, limits.nestingDepth) && EntriesWithin(limits, es, depth + 1)
    case _ => true
  }

  predicate ElementsWithin(limits: Limits, es: DataList, depth: nat) {
    es.MoreData? ==> ElementsWithin(limits, es.init, depth) && WithinLimits(limits, es.last, depth)
  }

  predicate EntriesWithin(limits: Limits, es: Entries, depth: nat) {
    es.Entries? ==>
      && EntriesWithin(limits, es.init, depth) && WithinLimits(limits, es.value, depth)
      && !Exceeds(|Escaping.Escaped(es.name)|, limits.nameLength)
  }

  function TokensOf(d: Data): nat {
    match d
    case List(es) => 2 + ElementTokens(es)
    case Dict(es) => 2 + EntryTokens(es)
    case _ => 1
  }

  function ElementTokens(es: DataList): nat {
    match es
    case NoData => 0
    case MoreData(init, last) => ElementTokens(init) + (if init.NoData? then 0 else 1) + TokensOf(last)
  }

  function EntryTokens(es: Entries): nat {
    match es
    case NoEntries => 0
    case Entries(init, _, value) => EntryTokens(init) + (if init.NoEntries? then 0 else 1) + 2 + TokensOf(value)
  }

  /** Whether a parser with these settings takes `d`, whose text is this long. */
  predicate Parseable(cfg: Config, d: Data, length: nat) {
    && !Exceeds(length, cfg.limits.documentLength)
    && !Exceeds(TokensOf(d), cfg.limits.tokenCount)
    && WithinLimits(cfg.limits, d, 0)
    && Readable(cfg, d)
  }

  // ---------- It is what they ask of the written tree ----------

  lemma {:induction false} NamesAreKeys(indent: Option<IndentConfig>, depth: nat, es: Entries)
    requires ProperEntries(es)
    ensures G.Keys(RenderEntries(indent, depth, es)) == NamesOf(es)
    decreases es
  {
    if es.Entries? {
      NamesAreKeys(indent, depth, es.init);
      EscapedDecodes(es.name);
    }
  }

  lemma {:induction false} WrittenFits(cfg: Config, indent: Option<IndentConfig>, depth: nat, d: Data, at: nat)
    requires Proper(d)
    ensures G.Fits(cfg, Render(indent, depth, d), at) <==> WithinLimits(cfg.limits, d, at) && Readable(cfg, d)
    decreases d, 1
  {
    match d
    case Integer(n) => NumeralText(n);
    case List(es) =>
      if es.MoreData? {
        ElementsFit(cfg, indent, depth + 1, es.init, at + 1);
        WrittenFits(cfg, indent, depth + 1, es.last, at + 1);
      }
    case Dict(es) => DictFits(cfg, indent, depth, es, at);
    case _ =>
  }

  lemma DictFits(cfg: Config, indent: Option<IndentConfig>, depth: nat, es: Entries, at: nat)
    requires ProperEntries(es)
    ensures G.Fits(cfg, RenderDict(indent, depth, es), at)
       <==> !Exceeds(at + 1, cfg.limits.nestingDepth) && EntriesWithin(cfg.limits, es, at + 1) && ReadableEntries(cfg, es)
    decreases es, 2
  {
    hide StringGrammar.Decode, StringGrammar.IsContent, NewLine;
    if es.Entries? {
      EntriesFit(cfg, indent, depth + 1, es.init, at + 1);
      WrittenFits(cfg, indent, depth + 1, es.value, at + 1);
      NamesAreKeys(indent, depth + 1, es.init);
      EscapedDecodes(es.name);
    }
  }

  lemma {:induction false} ElementsFit(cfg: Config, indent: Option<IndentConfig>, depth: nat, es: DataList, at: nat)
    requires ProperElements(es)
    ensures G.ItemsFit(cfg, RenderElements(indent, depth, es), at)
       <==> ElementsWithin(cfg.limits, es, at) && ReadableElements(cfg, es)
    decreases es, 1
  {
    if es.MoreData? {
      ElementsFit(cfg, indent, depth, es.init, at);
      WrittenFits(cfg, indent, depth, es.last, at);
    }
  }

  lemma {:induction false} EntriesFit(cfg: Config, indent: Option<IndentConfig>, depth: nat, es: Entries, at: nat)
    requires ProperEntries(es)
    ensures G.MembersFit(cfg, RenderEntries(indent, depth, es), at)
       <==> EntriesWithin(cfg.limits, es, at) && ReadableEntries(cfg, es)
    decreases es, 1
  {
    hide StringGrammar.Decode, StringGrammar.IsContent, NewLine;
    if es.Entries? {
      EntriesFit(cfg, indent, depth, es.init, at);
      WrittenFits(cfg, indent, depth, es.value, at);
      NamesAreKeys(indent, depth, es.init);
      EscapedDecodes(es.name);
    }
  }

  lemma {:induction false} CountsTokens(ws: bool, a: G.Account, indent: Option<IndentConfig>, depth: nat, d: Data)
    requires Proper(d)
    ensures G.After(ws, a, Render(indent, depth, d)).tokens == a.tokens + TokensOf(d)
    decreases d, 1
  {
    hide StringGrammar.Decode, StringGrammar.IsContent, NewLine, Positions.PosOf;
    match d
    case List(es) =>
      if es.MoreData? {
        ListIs(ws, a, indent, depth, es.init, es.last);
        var next := G.NextItem(ws, G.Opened(a, InArray), RenderElements(indent, depth + 1, es.init));
        CountsElements(ws, G.Opened(a, InArray), indent, depth + 1, es.init);
        CountsTokens(ws, G.Spaced(ws, next, NewLine(indent, depth + 1)), indent, depth + 1, es.last);
      }
    case Dict(es) =>
      if es.Entries? {
        DictIs(ws, a, indent, depth, es.init, es.name, es.value);
        CountsEntries(ws, G.Opened(a, InObject), indent, depth + 1, es.init);
        CountsMember(ws, G.NextMember(ws, G.Opened(a, InObject), RenderEntries(indent, depth + 1, es.init)), indent, depth + 1,
                     es.name, es.value, NewLine(indent, depth));
      }
    case _ =>
  }

  lemma CountsElements(ws: bool, a: G.Account, indent: Option<IndentConfig>, depth: nat, es: DataList)
    requires ProperElements(es)
    ensures G.NextItem(ws, a, RenderElements(indent, depth, es)).tokens
         == a.tokens + ElementTokens(es) + if es.NoData? then 0 else 1
    decreases es, 1
  {
    if es.MoreData? {
      var next := G.NextItem(ws, a, RenderElements(indent, depth, es.init));
      CountsElements(ws, a, indent, depth, es.init);
      CountsTokens(ws, G.Spaced(ws, next, NewLine(indent, depth)), indent, depth, es.last);
    }
  }

  lemma CountsMember(ws: bool, a: G.Account, indent: Option<IndentConfig>, depth: nat, name: Bytes, value: Data, after: G.Space)
    requires Proper(Text(name)) && Proper(value)
    ensures G.AfterMember(ws, a, MemberOf(indent, depth, name, value, after)).tokens == a.tokens + 2 + TokensOf(value)
    decreases value, 2
  {
    hide StringGrammar.Decode, StringGrammar.IsContent, NewLine, Positions.PosOf;
    var m := MemberOf(indent, depth, name, value, after);
    var b := G.AtMemberValue(ws, a, m.before, m.key, m.mid);
    CountsTokens(ws, G.Spaced(ws, b, AfterColon(indent)), indent, depth, value);
  }

  lemma CountsEntries(ws: bool, a: G.Account, indent: Option<IndentConfig>, depth: nat, es: Entries)
    requires ProperEntries(es)
    ensures G.NextMember(ws, a, RenderEntries(indent, depth, es)).tokens
         == a.tokens + EntryTokens(es) + if es.NoEntries? then 0 else 1
    decreases es, 1
  {
    if es.Entries? {
      CountsEntries(ws, a, indent, depth, es.init);
      CountsMember(ws, G.NextMember(ws, a, RenderEntries(indent, depth, es.init)), indent, depth, es.name, es.value, []);
    }
  }

  // ---------- The round trip ----------

  /** No value starts like a byte order mark. */
  lemma NoMark(v: G.Value)
    ensures Documents.Body(G.ValueText(v)) == G.ValueText(v)
  {
    if v.Number? {
      NumberLaws.ReadToken(v.numeral);
    }
    hide NumberLaws.Text, NumberLaws.Read, NumberLaws.AfterToken, NumberLaws.Meaning, G.ItemsText, G.MembersText, G.Text, G.MemberText;
    assert G.ValueText(v) != [] && G.ValueText(v)[0] != 0xEF;
  }

  /** What is written is the text of the rendered tree. */
  lemma WrittenText(indent: Option<IndentConfig>, d: Data)
    requires Proper(d)
    ensures var text, item := Unbounded(Place(indent, Init0, 0), Calls(d)), G.Item([], Render(indent, 0, d), []);
            text == G.Text(item) && Documents.Body(text) == text
  {
    hide Unbounded, Calls, G.ValueText, Documents.Body;
    var p, v := Place(indent, Init0, 0), Render(indent, 0, d);
    WritesTree(p, d);
    assert Lead(p) + G.ValueText(v) == G.ValueText(v);
    assert G.Text(G.Item([], v, [])) == G.ValueText(v);
    NoMark(v);
  }

  /** Data, written with any indentation, is accepted by a parser exactly if its
      settings allow the data; and then it is told as it was. */
  lemma WrittenIsReadBack(cfg: Config, indent: Option<IndentConfig>, d: Data)
    requires Proper(d)
    ensures var text := Unbounded(Place(indent, Init0, 0), Calls(d));
            var judged := Documents.Judge(cfg, text);
            && (judged.Some? <==> Parseable(cfg, d, |text|))
            && (judged.Some? ==> Erased(judged.value) == EventsOf(d))
  {
    hide Unbounded, Calls, G.After, Erased, EventsOf, G.ValueText, G.Text, G.Fits, Documents.Body, Documents.Judge, WithinLimits, Readable;
    var ws, item := cfg.needsWhitespace, G.Item([], Render(indent, 0, d), []);
    WrittenText(indent, d);
    WrittenFits(cfg, indent, 0, d, 0);
    CountsTokens(ws, G.Spaced(ws, G.NOTHING, []), indent, 0, d);
    Acceptance.AcceptsJson(cfg, G.Text(item), item);
    TellsItem(ws, G.NOTHING, indent, 0, d, item);
    NothingErased(EventsOf(d));
  }

  lemma NothingErased(log: Log)
    ensures Erased(G.NOTHING.log) + log == log
  {
  }

  lemma {:induction false} NoLimits(d: Data, depth: nat)
    ensures WithinLimits(Prefixes.UNLIMITED, d, depth)
    decreases d, 1
  {
    match d
    case List(es) => NoElementLimits(es, depth + 1);
    case Dict(es) => NoEntryLimits(es, depth + 1);
    case _ =>
  }

  lemma {:induction false} NoElementLimits(es: DataList, depth: nat)
    ensures ElementsWithin(Prefixes.UNLIMITED, es, depth)
    decreases es, 1
  {
    if es.MoreData? {
      NoElementLimits(es.init, depth);
      NoLimits(es.last, depth);
    }
  }

  lemma {:induction false} NoEntryLimits(es: Entries, depth: nat)
    ensures EntriesWithin(Prefixes.UNLIMITED, es, depth)
    decreases es, 1
  {
    if es.Entries? {
      NoEntryLimits(es.init, depth);
      NoLimits(es.value, depth);
    }
  }

  /** With no limits, only names matter. */
  lemma UnlimitedIsReadBack(cfg: Config, indent: Option<IndentConfig>, d: Data)
    requires cfg.limits == Prefixes.UNLIMITED && Proper(d)
    ensures Documents.Judge(cfg, Unbounded(Place(indent, Init0, 0), Calls(d))).Some? <==> Readable(cfg, d)
  {
    hide Documents.Judge, Unbounded, Calls, Readable, WithinLimits;
    NoLimits(d, 0);
    WrittenIsReadBack(cfg, indent, d);
  }

  // ---------- Room for what is written ----------

  /** Every name, escaped and in quotes, is at most `n` bytes long. */
  predicate NamesShort(d: Data, n: int) {
    match d
    case List(es) => ElementNamesShort(es, n)
    case Dict(es) => EntryNamesShort(es, n)
    case _ => true
  }

  predicate ElementNamesShort(es: DataList, n: int) {
    es.MoreData? ==> ElementNamesShort(es.init, n) && NamesShort(es.last, n)
  }

  predicate EntryNamesShort(es: Entries, n: int) {
    es.Entries? ==> EntryNamesShort(es.init, n) && |Escaping.Escaped(es.name)| + 2 <= n && NamesShort(es.value, n)
  }

  lemma {:induction false} WrittenKeysShort(indent: Option<IndentConfig>, depth: nat, d: Data, n: int)
    requires Proper(d)
    ensures G.KeysShort(Render(indent, depth, d), n) <==> NamesShort(d, n)
    decreases d, 1
  {
    match d
    case List(es) =>
      if es.MoreData? {
        ElementKeysShort(indent, depth + 1, es.init, n);
        WrittenKeysShort(indent, depth + 1, es.last, n);
      }
    case Dict(es) => DictKeysShort(indent, depth, es, n);
    case _ =>
  }

  lemma DictKeysShort(indent: Option<IndentConfig>, depth: nat, es: Entries, n: int)
    requires ProperEntries(es)
    ensures G.KeysShort(RenderDict(indent, depth, es), n) <==> EntryNamesShort(es, n)
    decreases es, 2
  {
    if es.Entries? {
      EntryKeysShort(indent, depth + 1, es.init, n);
      WrittenKeysShort(indent, depth + 1, es.value, n);
    }
  }

  lemma {:induction false} ElementKeysShort(indent: Option<IndentConfig>, depth: nat, es: DataList, n: int)
    requires ProperElements(es)
    ensures G.ItemKeysShort(RenderElements(indent, depth, es), n) <==> ElementNamesShort(es, n)
    decreases es, 1
  {
    if es.MoreData? {
      ElementKeysShort(indent, depth, es.init, n);
      WrittenKeysShort(indent, depth, es.last, n);
    }
  }

  lemma {:induction false} EntryKeysShort(indent: Option<IndentConfig>, depth: nat, es: Entries, n: int)
    requires ProperEntries(es)
    ensures G.MemberKeysShort(RenderEntries(indent, depth, es), n) <==> EntryNamesShort(es, n)
    decreases es, 1
  {
    if es.Entries? {
      EntryKeysShort(indent, depth, es.init, n);
      WrittenKeysShort(indent, depth, es.value, n);
    }
  }

  /** Each key of what is written shows its end in a ring that every name fits with
      its quotes; and in no smaller one, if the writing is accepted at all. */
  lemma WrittenFitsRing(cfg: Config, indent: Option<IndentConfig>, d: Data, capacity: nat)
    requires Proper(d)
    ensures var text := Unbounded(Place(indent, Init0, 0), Calls(d));
            var fits := Documents.KeysFit(cfg, INITIAL, Documents.Body(text), capacity);
            && (NamesShort(d, capacity) ==> fits)
            && (Documents.Judge(cfg, text).Some? && fits ==> NamesShort(d, capacity))
  {
    hide Unbounded, Calls, Documents.Body, Documents.KeysFit, Verdict, G.Text, NamesShort, G.KeysShort;
    var item := G.Item([], Render(indent, 0, d), []);
    WrittenText(indent, d);
    WrittenKeysShort(indent, 0, d, capacity);
    if NamesShort(d, capacity) {
      Prefixes.ShortKeysFit(cfg, item, capacity);
    } else if Documents.Judge(cfg, Unbounded(Place(indent, Init0, 0), Calls(d))).Some? {
      Prefixes.FittingIsShort(cfg, item, capacity);
    }
  }
}
