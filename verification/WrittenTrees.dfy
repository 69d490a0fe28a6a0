// The trees a writer writes: what it puts for some data is a JSON text.
module WrittenTrees {
  import opened Base
  import opened Escaping
  import opened StringGrammar
  import opened Layouts
  import Utf8
  import Numbers
  import NumberLaws
  import Writers
  import G = Grammar

  // ---------- Text ----------

  /** A byte that is escaped comes back as itself. */
  lemma EscapeReads(b: Byte, more: Bytes)
    requires !IsPlain(b)
    ensures var e := EscapeByte(b);
            && e[0] == BACKSLASH
            && EscapeAt(e + more) == Escaped(b, |e|)
  {
    if ShortEscape(b).None? {
      var hi, lo := HexChar(b / 16), HexChar(b % 16);
      assert IsHex(hi) && Hex(hi) == b / 16;
      assert IsHex(lo) && Hex(lo) == b % 16;
    }
  }

  lemma EscapedText(t: Bytes)
    requires t != [] && Utf8.CharAt(t).Len?
    ensures var n := Utf8.CharAt(t).n;
            Escaping.Escaped(t) == (if IsPlain(t[0]) then t[..n] else EscapeByte(t[0])) + Escaping.Escaped(t[n..])
            && (!IsPlain(t[0]) ==> n == 1)
  {
    var n := Utf8.CharAt(t).n;
    assert t == t[..n] + t[n..];
    EscapedConcat(t[..n], t[n..]);
    if IsPlain(t[0]) {
      forall i | 0 < i < n ensures Utf8.IsContinuation(t[i]) {
        Utf8.CharAtTail(t, i);
      }
      EscapedPlain(t[..n]);
    } else {
      assert t[..1][1..] == [];
      assert Escaping.Escaped(t[..1]) == EscapeByte(t[0]) + [];
    }
  }

  /** Escaping gives string content whose text is what was escaped. */
  lemma {:induction false} EscapedDecodes(t: Bytes)
    requires Utf8.ValidUtf8(t)
    ensures IsContent(Escaping.Escaped(t)) && Decode(Escaping.Escaped(t)) == t
    decreases |t|
  {
    if t == [] {
      assert Escaping.Escaped(t) == [];
    } else {
      hide Utf8.CharAt, Escaping.Escaped, EscapeByte, EscapeAt, IsContent, Decode;
      var n := Utf8.CharAt(t).n;
      EscapedDecodes(t[n..]);
      FirstDecodes(t);
    }
  }

  lemma FirstDecodes(t: Bytes)
    requires t != [] && Utf8.CharAt(t).Len?
    requires IsContent(Escaping.Escaped(t[Utf8.CharAt(t).n..])) && Decode(Escaping.Escaped(t[Utf8.CharAt(t).n..])) == t[Utf8.CharAt(t).n..]
    ensures IsContent(Escaping.Escaped(t)) && Decode(Escaping.Escaped(t)) == t
  {
    hide Utf8.CharAt, EscapeAt, IsContent, Decode, Escaping.Escaped;
    var n := Utf8.CharAt(t).n;
    var rest := Escaping.Escaped(t[n..]);
    EscapedText(t);
    if IsPlain(t[0]) {
      Utf8.CharAtPrefix(t, n);
      Utf8.CharAtStable(t[..n], rest);
      VerbatimDecodes(t[..n], rest);
    } else {
      EscapeReads(t[0], rest);
      hide EscapeByte;
      UnitDecodes(EscapeByte(t[0]) + rest, rest, t[0], |EscapeByte(t[0])|);
    }
    assert t == t[..n] + t[n..];
  }

  lemma VerbatimDecodes(c: Bytes, rest: Bytes)
    requires c != [] && IsPlain(c[0]) && Utf8.CharAt(c + rest) == Utf8.Len(|c|) && IsContent(rest)
    ensures IsContent(c + rest) && Decode(c + rest) == c + Decode(rest)
  {
    hide Utf8.CharAt;
    var s := c + rest;
    assert s[..|c|] == c && s[|c|..] == rest;
    assert IsContent(s) by {
      assert ElementLen(s) == |c|;
    }
    assert Elements(s) == [Element.Verbatim(c)] + Elements(rest);
    assert Elements(s)[1..] == Elements(rest);
  }

  lemma UnitDecodes(s: Bytes, rest: Bytes, b: Byte, n: nat)
    requires s != [] && s[0] == BACKSLASH && EscapeAt(s) == Escaped(b, n) && b < 0x80 && s[n..] == rest && IsContent(rest)
    ensures IsContent(s) && Decode(s) == [b] + Decode(rest)
  {
    hide EscapeAt;
    assert ElementLen(s) == n;
    assert Elements(s) == [CodeUnit(b)] + Elements(rest);
    assert Elements(s)[1..] == Elements(rest);
  }

  // ---------- Data ----------

  /** What a caller writes: an integer is an i64 or a big integer, names and texts are UTF-8. */
  datatype Data =
    | Null
    | Bool(value: bool)
    | Integer(n: int)
    | Text(text: Bytes)
    | List(elements: DataList)
    | Dict(entries: Entries)

  datatype DataList = NoData | MoreData(init: DataList, last: Data)

  datatype Entries = NoEntries | Entries(init: Entries, name: Bytes, value: Data)

  predicate Proper(d: Data) {
    match d
    case Text(t) => Utf8.ValidUtf8(t)
    case List(es) => ProperElements(es)
    case Dict(es) => ProperEntries(es)
    case _ => true
  }

  predicate ProperElements(es: DataList) {
    es.MoreData? ==> ProperElements(es.init) && Proper(es.last)
  }

  predicate ProperEntries(es: Entries) {
    es.Entries? ==> ProperEntries(es.init) && Utf8.ValidUtf8(es.name) && Proper(es.value)
  }

  /** The calls that write it. */
  function Calls(d: Data): seq<Call> {
    match d
    case Null => [Call.Verbatim(Writers.NULL)]
    case Bool(b) => [Call.Verbatim(if b then Writers.TRUE else Writers.FALSE)]
    case Integer(n) => [Call.Verbatim(Writers.Decimal(n))]
    case Text(t) => [Str(t)]
    case List(es) => [Open(LBRACKET)] + ElementCalls(es) + [Close(RBRACKET)]
    case Dict(es) => [Open(LBRACE)] + EntryCalls(es) + [Close(RBRACE)]
  }

  function ElementCalls(es: DataList): seq<Call> {
    match es
    case NoData => []
    case MoreData(init, last) => ElementCalls(init) + Calls(last)
  }

  function EntryCalls(es: Entries): seq<Call> {
    match es
    case NoEntries => []
    case Entries(init, name, value) => EntryCalls(init) + ([Key(name)] + Calls(value))
  }

  // ---------- The tree that is written ----------

  function NumeralOf(n: int): G.Numeral {
    NumberLaws.ValueOfDecimal(if n < 0 then -n else n);
    NumberLaws.Token(n < 0, Numbers.Decimal(if n < 0 then -n else n), None, NumberLaws.NoExponent)
  }

  function ContentOfText(t: Bytes): G.Content
    requires Utf8.ValidUtf8(t)
  {
    EscapedDecodes(t);
    Escaping.Escaped(t)
  }

  /** What goes between a colon and its value. */
  function AfterColon(indent: Option<IndentConfig>): G.Space {
    if indent.Some? then [SPACE] else []
  }

  function Render(indent: Option<IndentConfig>, depth: nat, d: Data): G.Value
    requires Proper(d)
    decreases d, 0
  {
    match d
    case Null => G.Literal(G.Null)
    case Bool(b) => G.Literal(if b then G.True else G.False)
    case Integer(n) => G.Number(NumeralOf(n))
    case Text(t) => G.Str(ContentOfText(t))
    case List(es) => RenderList(indent, depth, es)
    case Dict(es) => RenderDict(indent, depth, es)
  }

  function RenderList(indent: Option<IndentConfig>, depth: nat, es: DataList): G.Value
    requires ProperElements(es)
    decreases es, 1
  {
    match es
    case NoData => G.EmptyArray(NewLine(indent, depth))
    case MoreData(init, last) =>
      G.Array(RenderElements(indent, depth + 1, init),
              G.Item(NewLine(indent, depth + 1), Render(indent, depth + 1, last), NewLine(indent, depth)))
  }

  function RenderDict(indent: Option<IndentConfig>, depth: nat, es: Entries): G.Value
    requires ProperEntries(es)
    decreases es, 1
  {
    match es
    case NoEntries => G.EmptyObject(NewLine(indent, depth))
    case Entries(init, name, value) =>
      G.Object(RenderEntries(indent, depth + 1, init), MemberOf(indent, depth + 1, name, value, NewLine(indent, depth)))
  }

  function MemberOf(indent: Option<IndentConfig>, depth: nat, name: Bytes, value: Data, after: G.Space): G.Member
    requires Utf8.ValidUtf8(name) && Proper(value)
    decreases value, 1
  {
    G.Member(NewLine(indent, depth), ContentOfText(name), [], G.Item(AfterColon(indent), Render(indent, depth, value), after))
  }

  function RenderElements(indent: Option<IndentConfig>, depth: nat, es: DataList): G.Items
    requires ProperElements(es)
    decreases es, 0
  {
    match es
    case NoData => G.NoItems
    case MoreData(init, last) =>
      G.Items(RenderElements(indent, depth, init), G.Item(NewLine(indent, depth), Render(indent, depth, last), []))
  }

  function RenderEntries(indent: Option<IndentConfig>, depth: nat, es: Entries): G.Members
    requires ProperEntries(es)
    decreases es, 0
  {
    match es
    case NoEntries => G.NoMembers
    case Entries(init, name, value) =>
      G.Members(RenderEntries(indent, depth, init), MemberOf(indent, depth, name, value, []))
  }

  // ---------- The output is the tree's text ----------

  lemma Two(p: Place, a: seq<Call>, b: seq<Call>, x: Bytes, y: Bytes, q: Place, r: Place)
    requires Unbounded(p, a) == x && Finally(p, a) == q && Unbounded(q, b) == y && Finally(q, b) == r
    ensures Unbounded(p, a + b) == x + y && Finally(p, a + b) == r
  {
    UnboundedConcat(p, a, b);
  }

  /** A value is written as its tree, after what its place calls for. */
  lemma {:induction false} WritesTree(p: Place, d: Data)
    requires Proper(d)
    ensures Unbounded(p, Calls(d)) == Lead(p) + G.ValueText(Render(p.indent, p.depth, d))
    ensures Finally(p, Calls(d)) == p.(state := AfterValue)
    decreases d, 1
  {
    match d
    case List(es) => WritesList(p, es);
    case Dict(es) => WritesDict(p, es);
    case Integer(n) =>
      OneCall(p, Call.Verbatim(Writers.Decimal(n)));
      NumeralText(n);
    case _ => OneCall(p, Calls(d)[0]);
  }

  lemma NumeralText(n: int)
    ensures NumberLaws.Text(NumeralOf(n)) == Writers.Decimal(n)
  {
    hide Numbers.Decimal;
    var digits := Numbers.Decimal(if n < 0 then -n else n);
    assert [] + digits == digits && digits + [] + [] == digits;
    assert [MINUS] + digits + [] + [] == [MINUS] + digits;
  }

  lemma WritesList(p: Place, es: DataList)
    requires ProperElements(es)
    ensures Unbounded(p, Calls(List(es))) == Lead(p) + G.ValueText(Render(p.indent, p.depth, List(es)))
    ensures Finally(p, Calls(List(es))) == p.(state := AfterValue)
    decreases es, 2
  {
    var open, inner, close := [Open(LBRACKET)], ElementCalls(es), [Close(RBRACKET)];
    hide Unbounded, Finally, Calls, ElementCalls, EntryCalls, Lead, NewLine, Output, Next, G.ValueText, Render, InnerList, InnerDict;
    var q := Next(p, Open(LBRACKET));
    BracketOutput(p, LBRACKET);
    OneCall(p, open[0]);
    WritesElements(q, es);
    var r := Finally(q, inner);
    BracketOutput(r, RBRACKET);
    OneCall(r, close[0]);
    Two(p, open, inner, Lead(p) + [LBRACKET], Unbounded(q, inner), q, r);
    Two(p, open + inner, close, Lead(p) + [LBRACKET] + Unbounded(q, inner), NewLine(p.indent, p.depth) + [RBRACKET], r,
        p.(state := AfterValue));
    ListCalls(es);
    ListText(p, es, q);
  }

  lemma ListText(p: Place, es: DataList, q: Place)
    requires ProperElements(es) && q == Place(p.indent, Init, p.depth + 1)
    requires Unbounded(q, ElementCalls(es)) == InnerList(p.indent, p.depth + 1, es)
    ensures Lead(p) + [LBRACKET] + Unbounded(q, ElementCalls(es)) + (NewLine(p.indent, p.depth) + [RBRACKET])
         == Lead(p) + G.ValueText(Render(p.indent, p.depth, List(es)))
  {
    hide Unbounded, ElementCalls, Lead, NewLine;
    var inner, after := InnerList(p.indent, p.depth + 1, es), NewLine(p.indent, p.depth);
    Around(Lead(p), [LBRACKET], inner, after + [RBRACKET]);
    if es.MoreData? {
      hide G.ValueText, Render, InnerList, G.ItemsText;
      ArrayText(p.indent, p.depth, es.init, es.last);
    } else {
      assert [LBRACKET] + inner + (after + [RBRACKET]) == [LBRACKET] + after + [RBRACKET];
    }
  }

  /** What stands in a list, but for the whitespace before its closing bracket. */
  function InnerList(indent: Option<IndentConfig>, depth: nat, es: DataList): Bytes
    requires ProperElements(es)
  {
    match es
    case NoData => []
    case MoreData(init, last) =>
      G.ItemsText(RenderElements(indent, depth, init)) + (NewLine(indent, depth) + G.ValueText(Render(indent, depth, last)))
  }

  /** The elements of a list, the first just after its opening bracket. */
  lemma WritesElements(q: Place, es: DataList)
    requires ProperElements(es) && q.state == Init
    ensures Unbounded(q, ElementCalls(es)) == InnerList(q.indent, q.depth, es)
    ensures Finally(q, ElementCalls(es)) == if es.NoData? then q else q.(state := AfterValue)
    decreases es, 1
  {
    if es.MoreData? {
      var r := Finally(q, ElementCalls(es.init));
      WritesElements(q, es.init);
      WritesTree(r, es.last);
      hide Unbounded, Finally, Calls, ElementCalls, NewLine, Render, G.ValueText;
      UnfoldElements(es);
      var value := G.ValueText(Render(q.indent, q.depth, es.last));
      Two(q, ElementCalls(es.init), Calls(es.last), InnerList(q.indent, q.depth, es.init), Lead(r) + value, r, q.(state := AfterValue));
      InnerGrows(q.indent, q.depth, es.init, NewLine(q.indent, q.depth), value);
    }
  }

  lemma UnfoldElements(es: DataList)
    requires es.MoreData?
    ensures ElementCalls(es) == ElementCalls(es.init) + Calls(es.last)
  {
  }

  lemma InnerGrows(indent: Option<IndentConfig>, depth: nat, init: DataList, nl: Bytes, value: Bytes)
    requires ProperElements(init) && nl == NewLine(indent, depth)
    ensures InnerList(indent, depth, init) + ((if init.NoData? then nl else [COMMA] + nl) + value)
         == G.ItemsText(RenderElements(indent, depth, init)) + (nl + value)
  {
    hide NewLine, Render, G.ValueText;
    if init.MoreData? {
      var items, last := G.ItemsText(RenderElements(indent, depth, init.init)), G.ValueText(Render(indent, depth, init.last));
      assert nl + last + [] == nl + last;
      hide G.ItemsText, RenderElements;
      assert items + (nl + last) + (([COMMA] + nl) + value) == items + (nl + last) + [COMMA] + (nl + value);
    }
  }

  lemma Bracket(open: Bytes, items: Bytes, before: Bytes, value: Bytes, after: Bytes, close: Bytes)
    ensures open + items + (before + value + after) + close == open + (items + (before + value)) + (after + close)
  {
  }

  lemma BracketOutput(p: Place, b: Byte)
    ensures Output(p, Open(b)) == Lead(p) + [b] && Next(p, Open(b)) == Place(p.indent, Init, p.depth + 1)
    ensures Output(p, Close(b)) == NewLine(p.indent, Up(p.depth)) + [b] && Next(p, Close(b)) == Place(p.indent, AfterValue, Up(p.depth))
  {
  }

  lemma Around(lead: Bytes, open: Bytes, inner: Bytes, close: Bytes)
    ensures lead + open + inner + close == lead + (open + inner + close)
  {
  }

  lemma ArrayText(indent: Option<IndentConfig>, depth: nat, init: DataList, last: Data)
    requires ProperElements(init) && Proper(last)
    ensures G.ValueText(Render(indent, depth, List(MoreData(init, last))))
         == [LBRACKET] + InnerList(indent, depth + 1, MoreData(init, last)) + (NewLine(indent, depth) + [RBRACKET])
  {
    var items := G.ItemsText(RenderElements(indent, depth + 1, init));
    var before, value, after := NewLine(indent, depth + 1), G.ValueText(Render(indent, depth + 1, last)), NewLine(indent, depth);
    assert G.ValueText(Render(indent, depth, List(MoreData(init, last)))) == [LBRACKET] + items + (before + value + after) + [RBRACKET];
    hide NewLine, Render, RenderElements, G.ValueText, G.ItemsText;
    Bracket([LBRACKET], items, before, value, after, [RBRACKET]);
  }

  // ---------- Objects ----------

  lemma WritesDict(p: Place, es: Entries)
    requires ProperEntries(es)
    ensures Unbounded(p, Calls(Dict(es))) == Lead(p) + G.ValueText(Render(p.indent, p.depth, Dict(es)))
    ensures Finally(p, Calls(Dict(es))) == p.(state := AfterValue)
    decreases es, 2
  {
    var open, inner, close := [Open(LBRACE)], EntryCalls(es), [Close(RBRACE)];
    hide Unbounded, Finally, Calls, ElementCalls, EntryCalls, Lead, NewLine, Output, Next, G.ValueText, Render, InnerList, InnerDict;
    var q := Next(p, Open(LBRACE));
    BracketOutput(p, LBRACE);
    OneCall(p, open[0]);
    WritesEntries(q, es);
    var r := Finally(q, inner);
    BracketOutput(r, RBRACE);
    OneCall(r, close[0]);
    Two(p, open, inner, Lead(p) + [LBRACE], Unbounded(q, inner), q, r);
    Two(p, open + inner, close, Lead(p) + [LBRACE] + Unbounded(q, inner), NewLine(p.indent, p.depth) + [RBRACE], r,
        p.(state := AfterValue));
    DictCalls(es);
    DictText(p, es, q);
  }

  lemma DictCalls(es: Entries)
    ensures Calls(Dict(es)) == [Open(LBRACE)] + EntryCalls(es) + [Close(RBRACE)]
  {
  }

  lemma ListCalls(es: DataList)
    ensures Calls(List(es)) == [Open(LBRACKET)] + ElementCalls(es) + [Close(RBRACKET)]
  {
  }

  lemma DictText(p: Place, es: Entries, q: Place)
    requires ProperEntries(es) && q == Place(p.indent, Init, p.depth + 1)
    requires Unbounded(q, EntryCalls(es)) == InnerDict(p.indent, p.depth + 1, es)
    ensures Lead(p) + [LBRACE] + Unbounded(q, EntryCalls(es)) + (NewLine(p.indent, p.depth) + [RBRACE])
         == Lead(p) + G.ValueText(Render(p.indent, p.depth, Dict(es)))
  {
    hide Unbounded, EntryCalls, Lead, NewLine;
    var inner, after := InnerDict(p.indent, p.depth + 1, es), NewLine(p.indent, p.depth);
    Around(Lead(p), [LBRACE], inner, after + [RBRACE]);
    if es.Entries? {
      hide G.ValueText, Render, InnerDict, G.MembersText;
      ObjectText(p.indent, p.depth, es.init, es.name, es.value);
    } else {
      assert [LBRACE] + inner + (after + [RBRACE]) == [LBRACE] + after + [RBRACE];
    }
  }

  /** A name, its colon and its value, as written. */
  function EntryText(indent: Option<IndentConfig>, depth: nat, name: Bytes, value: Data): Bytes
    requires Utf8.ValidUtf8(name) && Proper(value)
  {
    Quoted(name) + [COLON] + (AfterColon(indent) + G.ValueText(Render(indent, depth, value)))
  }

  function InnerDict(indent: Option<IndentConfig>, depth: nat, es: Entries): Bytes
    requires ProperEntries(es)
  {
    match es
    case NoEntries => []
    case Entries(init, name, value) =>
      G.MembersText(RenderEntries(indent, depth, init)) + (NewLine(indent, depth) + EntryText(indent, depth, name, value))
  }

  lemma WritesEntries(q: Place, es: Entries)
    requires ProperEntries(es) && q.state == Init
    ensures Unbounded(q, EntryCalls(es)) == InnerDict(q.indent, q.depth, es)
    ensures Finally(q, EntryCalls(es)) == if es.NoEntries? then q else q.(state := AfterValue)
    decreases es, 1
  {
    if es.Entries? {
      var r := Finally(q, EntryCalls(es.init));
      WritesEntries(q, es.init);
      var named := Next(r, Key(es.name));
      OneCall(r, Key(es.name));
      WritesTree(named, es.value);
      hide Unbounded, Finally, Calls, EntryCalls, NewLine, Render, G.ValueText, Quoted, Output;
      UnfoldEntries(es);
      var value := G.ValueText(Render(q.indent, q.depth, es.value));
      var colon := AfterColon(q.indent);
      var entry := EntryText(q.indent, q.depth, es.name, es.value);
      KeyOutput(r, es.name);
      Two(r, [Key(es.name)], Calls(es.value), Lead(r) + Quoted(es.name) + [COLON], colon + value, named, q.(state := AfterValue));
      Around(Lead(r), Quoted(es.name), [COLON], colon + value);
      Two(q, EntryCalls(es.init), [Key(es.name)] + Calls(es.value), InnerDict(q.indent, q.depth, es.init),
          Lead(r) + entry, r, q.(state := AfterValue));
      EntriesGrow(q.indent, q.depth, es.init, NewLine(q.indent, q.depth), entry);
    }
  }

  lemma KeyOutput(p: Place, name: Bytes)
    ensures Output(p, Key(name)) == Lead(p) + Quoted(name) + [COLON]
  {
    Assoc(Lead(p), Quoted(name), [COLON]);
  }

  lemma UnfoldEntries(es: Entries)
    requires es.Entries?
    ensures EntryCalls(es) == EntryCalls(es.init) + ([Key(es.name)] + Calls(es.value))
  {
  }

  lemma EntriesGrow(indent: Option<IndentConfig>, depth: nat, init: Entries, nl: Bytes, entry: Bytes)
    requires ProperEntries(init) && nl == NewLine(indent, depth)
    ensures InnerDict(indent, depth, init) + ((if init.NoEntries? then nl else [COMMA] + nl) + entry)
         == G.MembersText(RenderEntries(indent, depth, init)) + (nl + entry)
  {
    hide NewLine, Render, G.ValueText;
    if init.Entries? {
      var items, last := G.MembersText(RenderEntries(indent, depth, init.init)), EntryText(indent, depth, init.name, init.value);
      EntryIsMember(indent, depth, init.name, init.value, []);
      assert nl + last + [] == nl + last;
      MembersSnoc(indent, depth, init);
      hide G.MembersText, RenderEntries, EntryText, G.MemberText;
      assert items + (nl + last) + (([COMMA] + nl) + entry) == items + (nl + last) + [COMMA] + (nl + entry);
    }
  }

  lemma EntryIsMember(indent: Option<IndentConfig>, depth: nat, name: Bytes, value: Data, after: G.Space)
    requires Utf8.ValidUtf8(name) && Proper(value)
    ensures G.MemberText(MemberOf(indent, depth, name, value, after)) == NewLine(indent, depth) + EntryText(indent, depth, name, value) + after
  {
    hide NewLine, Render, G.ValueText, Escaping.Escaped;
    var nl, e, colon, v := NewLine(indent, depth), Escaping.Escaped(name), AfterColon(indent), G.ValueText(Render(indent, depth, value));
    assert nl + [QUOTE] + e + [QUOTE] + [] + [COLON] + (colon + v + after)
        == nl + ([QUOTE] + e + [QUOTE] + [COLON] + (colon + v)) + after;
  }

  lemma MembersSnoc(indent: Option<IndentConfig>, depth: nat, es: Entries)
    requires ProperEntries(es) && es.Entries?
    ensures G.MembersText(RenderEntries(indent, depth, es))
         == G.MembersText(RenderEntries(indent, depth, es.init)) + G.MemberText(MemberOf(indent, depth, es.name, es.value, [])) + [COMMA]
  {
    hide G.MemberText;
  }

  lemma ObjectText(indent: Option<IndentConfig>, depth: nat, init: Entries, name: Bytes, value: Data)
    requires ProperEntries(init) && Utf8.ValidUtf8(name) && Proper(value)
    ensures G.ValueText(Render(indent, depth, Dict(Entries(init, name, value))))
         == [LBRACE] + InnerDict(indent, depth + 1, Entries(init, name, value)) + (NewLine(indent, depth) + [RBRACE])
  {
    var names := RenderEntries(indent, depth + 1, init);
    var before, entry, after := NewLine(indent, depth + 1), EntryText(indent, depth + 1, name, value), NewLine(indent, depth);
    RenderedObject(indent, depth, init, name, value);
    ObjectIs(names, MemberOf(indent, depth + 1, name, value, after));
    EntryIsMember(indent, depth + 1, name, value, after);
    hide G.MembersText, Render, RenderEntries, MemberOf, EntryText, NewLine, G.ValueText, G.MemberText, ProperEntries, Proper, Utf8.ValidUtf8;
    Bracket([LBRACE], G.MembersText(names), before, entry, after, [RBRACE]);
  }

  lemma RenderedObject(indent: Option<IndentConfig>, depth: nat, init: Entries, name: Bytes, value: Data)
    requires ProperEntries(init) && Utf8.ValidUtf8(name) && Proper(value)
    ensures Render(indent, depth, Dict(Entries(init, name, value)))
         == G.Object(RenderEntries(indent, depth + 1, init), MemberOf(indent, depth + 1, name, value, NewLine(indent, depth)))
  {
    hide MemberOf, NewLine, Utf8.ValidUtf8;
  }

  lemma ObjectIs(names: G.Members, final: G.Member)
    ensures G.ValueText(G.Object(names, final)) == [LBRACE] + G.MembersText(names) + G.MemberText(final) + [RBRACE]
  {
    hide G.MembersText, G.MemberText;
  }
}
