// Indentation, as it is made from a compact text byte by byte: what a writer with
// indentation puts is that, and without it the compact text itself.
module Pretty {
  import opened Base
  import opened Layouts
  import opened WrittenTrees
  import Escaping
  import NumberLaws
  import Numbers
  import Utf8
  import Writers
  import G = Grammar

  // The bytes that matter are written out: brackets are 0x5B, 0x5D, 0x7B and 0x7D, the
  // comma 0x2C, the colon 0x3A, the quotation mark 0x22, the backslash 0x5C.

  /** Where in a text a byte is: inside a string, at a place where a line is due to
      begin, or at any other. */
  datatype Spot = Within | LineDue | Elsewhere

  /** A line feed, and `count` units for each bracket that is open. */
  function Break(indent: IndentConfig, depth: nat): (s: Bytes)
    ensures |s| == 1 + indent.count * depth
  {
    seq(1 + indent.count * depth, k => if k == 0 then 0x0A else indent.unit)
  }

  /** `s`, of which `depth` brackets are open, laid out in lines: one begins after each
      opening bracket and comma and before each closing bracket, and a space follows
      each colon, but for those in strings. */
  function Indented(indent: IndentConfig, s: Bytes, depth: nat, spot: Spot): Bytes
    decreases |s|
  {
    if s == [] then []
    else
      var b, rest := s[0], s[1..];
      if spot.Within? then
        if b == 0x5C && rest != [] then [b, rest[0]] + Indented(indent, rest[1..], depth, Within)
        else [b] + Indented(indent, rest, depth, if b == 0x22 then Elsewhere else Within)
      else if b == 0x5D || b == 0x7D then
        Break(indent, Outer(depth)) + [b] + Indented(indent, rest, Outer(depth), Elsewhere)
      else
        Due(indent, depth, spot)
        + if b == 0x5B || b == 0x7B then [b] + Indented(indent, rest, depth + 1, LineDue)
          else if b == 0x2C then [b] + Indented(indent, rest, depth, LineDue)
          else if b == 0x3A then [b, 0x20] + Indented(indent, rest, depth, Elsewhere)
          else [b] + Indented(indent, rest, depth, if b == 0x22 then Within else Elsewhere)
  }

  function Outer(depth: nat): nat {
    if depth > 0 then depth - 1 else 0
  }

  function Due(indent: IndentConfig, depth: nat, spot: Spot): Bytes {
    if spot.LineDue? then Break(indent, depth) else []
  }

  predicate IsScalarByte(b: Byte) {
    b !in {0x5B, 0x5D, 0x7B, 0x7D, 0x2C, 0x3A, 0x22}
  }

  // ---------- Scalars ----------

  lemma BreakIsNewLine(indent: IndentConfig, depth: nat)
    ensures NewLine(Some(indent), depth) == Break(indent, depth)
  {
    NewLineShape(indent, depth);
  }

  lemma {:induction false} ScalarIndented(indent: IndentConfig, x: Bytes, rest: Bytes, depth: nat, spot: Spot)
    requires x != [] && !spot.Within? && forall i :: 0 <= i < |x| ==> IsScalarByte(x[i])
    ensures Indented(indent, x + rest, depth, spot) == Due(indent, depth, spot) + x + Indented(indent, rest, depth, Elsewhere)
    decreases |x|
  {
    hide Break;
    var s := x + rest;
    assert s[0] == x[0] && s[1..] == x[1..] + rest;
    if |x| > 1 {
      ScalarIndented(indent, x[1..], rest, depth, Elsewhere);
      assert [x[0]] + x[1..] == x;
    }
  }

  lemma {:induction false} InsideIndented(indent: IndentConfig, t: Bytes, rest: Bytes, depth: nat)
    ensures Indented(indent, Escaping.Escaped(t) + rest, depth, Within) == Escaping.Escaped(t) + Indented(indent, rest, depth, Within)
    decreases |t|
  {
    if t == [] {
      assert [] + rest == rest;
    } else {
      var first, more := Escaping.EscapeByte(t[0]), Escaping.Escaped(t[1..]);
      InsideIndented(indent, t[1..], rest, depth);
      Assoc(first, more, rest);
      ByteIndented(indent, t[0], more + rest, depth);
    }
  }

  lemma ByteIndented(indent: IndentConfig, b: Byte, rest: Bytes, depth: nat)
    ensures Indented(indent, Escaping.EscapeByte(b) + rest, depth, Within) == Escaping.EscapeByte(b) + Indented(indent, rest, depth, Within)
  {
    var e := Escaping.EscapeByte(b);
    var s := e + rest;
    if |e| == 6 {
      FourMore(indent, e[2..], rest, depth);
      assert s[1..][1..] == e[2..] + rest && e == [e[0], e[1]] + e[2..];
    } else if |e| == 2 {
      assert s[1..][1..] == rest;
    } else {
      assert s[1..] == rest;
    }
  }

  lemma {:induction false} FourMore(indent: IndentConfig, x: Bytes, rest: Bytes, depth: nat)
    requires forall i :: 0 <= i < |x| ==> x[i] != 0x22 && x[i] != 0x5C
    ensures Indented(indent, x + rest, depth, Within) == x + Indented(indent, rest, depth, Within)
    decreases |x|
  {
    if x == [] {
      assert [] + rest == rest;
    } else {
      assert (x + rest)[1..] == x[1..] + rest;
      FourMore(indent, x[1..], rest, depth);
    }
  }

  lemma QuoteIndented(indent: IndentConfig, rest: Bytes, depth: nat, spot: Spot)
    ensures Indented(indent, [QUOTE] + rest, depth, spot)
         == if spot.Within? then [QUOTE] + Indented(indent, rest, depth, Elsewhere)
            else Due(indent, depth, spot) + ([QUOTE] + Indented(indent, rest, depth, Within))
  {
    hide Break, Due;
    assert ([QUOTE] + rest)[1..] == rest;
  }

  lemma StringIndented(indent: IndentConfig, t: Bytes, rest: Bytes, depth: nat, spot: Spot)
    requires !spot.Within?
    ensures Indented(indent, Quoted(t) + rest, depth, spot) == Due(indent, depth, spot) + Quoted(t) + Indented(indent, rest, depth, Elsewhere)
  {
    hide Escaping.Escaped, Indented, Due;
    var e := Escaping.Escaped(t);
    QuoteIndented(indent, e + ([QUOTE] + rest), depth, spot);
    InsideIndented(indent, t, [QUOTE] + rest, depth);
    QuoteIndented(indent, rest, depth, Within);
    assert Quoted(t) + rest == [QUOTE] + (e + ([QUOTE] + rest));
    var lead, after := Due(indent, depth, spot), Indented(indent, rest, depth, Elsewhere);
    assert lead + ([QUOTE] + (e + ([QUOTE] + after))) == lead + Quoted(t) + after;
  }

  // ---------- Single bytes ----------

  lemma OpenIndented(indent: IndentConfig, b: Byte, rest: Bytes, depth: nat, spot: Spot)
    requires !spot.Within? && (b == LBRACKET || b == LBRACE)
    ensures Indented(indent, [b] + rest, depth, spot) == Due(indent, depth, spot) + [b] + Indented(indent, rest, depth + 1, LineDue)
  {
    hide Break;
    assert ([b] + rest)[1..] == rest;
  }

  lemma CloseIndented(indent: IndentConfig, b: Byte, rest: Bytes, depth: nat, spot: Spot)
    requires !spot.Within? && (b == RBRACKET || b == RBRACE)
    ensures Indented(indent, [b] + rest, depth + 1, spot) == Break(indent, depth) + [b] + Indented(indent, rest, depth, Elsewhere)
  {
    hide Break;
    assert ([b] + rest)[1..] == rest;
  }

  lemma CommaIndented(indent: IndentConfig, rest: Bytes, depth: nat)
    ensures Indented(indent, [COMMA] + rest, depth, Elsewhere) == [COMMA] + Indented(indent, rest, depth, LineDue)
  {
    assert ([COMMA] + rest)[1..] == rest;
  }

  lemma ColonIndented(indent: IndentConfig, rest: Bytes, depth: nat)
    ensures Indented(indent, [COLON] + rest, depth, Elsewhere) == [COLON, SPACE] + Indented(indent, rest, depth, Elsewhere)
  {
    assert ([COLON] + rest)[1..] == rest;
  }

  // ---------- Values ----------

  function Written(indent: Option<IndentConfig>, depth: nat, d: Data): Bytes
    requires Proper(d)
  {
    G.ValueText(Render(indent, depth, d))
  }

  lemma ScalarBytes(d: Data, indent: Option<IndentConfig>, depth: nat)
    requires d.Null? || d.Bool? || d.Integer?
    ensures var x := Written(indent, depth, d);
            x == Written(None, depth, d) && x != [] && forall i :: 0 <= i < |x| ==> IsScalarByte(x[i]) && x[i] > 0x20
  {
    if d.Integer? {
      hide NumeralOf, NumberLaws.Text, Numbers.Decimal;
      NumeralText(d.n);
      assert Written(indent, depth, d) == Writers.Decimal(d.n);
    }
  }

  /** A value is written with indentation as its compact form is laid out. */
  lemma {:induction false} ValueIndented(indent: IndentConfig, depth: nat, d: Data, rest: Bytes, spot: Spot)
    requires Proper(d) && !spot.Within?
    ensures Indented(indent, Written(None, depth, d) + rest, depth, spot)
         == Due(indent, depth, spot) + Written(Some(indent), depth, d) + Indented(indent, rest, depth, Elsewhere)
    decreases d, 1
  {
    hide Indented, Due;
    match d
    case List(es) => ListIndented(indent, depth, es, rest, spot);
    case Dict(es) => DictIndented(indent, depth, es, rest, spot);
    case Text(t) =>
      hide Escaping.Escaped;
      StringIndented(indent, t, rest, depth, spot);
    case _ =>
      hide Written;
      ScalarBytes(d, Some(indent), depth);
      ScalarIndented(indent, Written(None, depth, d), rest, depth, spot);
  }

  lemma EmptyIndented(indent: IndentConfig, depth: nat, open: Byte, close: Byte, rest: Bytes, spot: Spot)
    requires !spot.Within? && ((open == LBRACKET && close == RBRACKET) || (open == LBRACE && close == RBRACE))
    ensures Indented(indent, [open] + [] + [close] + rest, depth, spot)
         == Due(indent, depth, spot) + ([open] + NewLine(Some(indent), depth) + [close]) + Indented(indent, rest, depth, Elsewhere)
  {
    hide Indented, Due, Break, NewLine;
    BreakIsNewLine(indent, depth);
    OpenIndented(indent, open, [close] + rest, depth, spot);
    CloseIndented(indent, close, rest, depth, LineDue);
    assert [open] + [] + [close] + rest == [open] + ([close] + rest);
  }

  /** A bracketed sequence: `items`, each with its comma, then `last`. */
  lemma BracketIndented(indent: IndentConfig, depth: nat, open: Byte, close: Byte, items: Bytes, last: Bytes, rest: Bytes, spot: Spot,
                        itemsPut: Bytes, lastPut: Bytes)
    requires !spot.Within? && ((open == LBRACKET && close == RBRACKET) || (open == LBRACE && close == RBRACE))
    requires Indented(indent, items + (last + ([close] + rest)), depth + 1, LineDue)
          == itemsPut + Indented(indent, last + ([close] + rest), depth + 1, LineDue)
    requires Indented(indent, last + ([close] + rest), depth + 1, LineDue)
          == NewLine(Some(indent), depth + 1) + lastPut + Indented(indent, [close] + rest, depth + 1, Elsewhere)
    ensures Indented(indent, [open] + (items + ([] + last)) + ([] + [close]) + rest, depth, spot)
         == Due(indent, depth, spot)
            + ([open] + (itemsPut + (NewLine(Some(indent), depth + 1) + lastPut)) + (NewLine(Some(indent), depth) + [close]))
            + Indented(indent, rest, depth, Elsewhere)
  {
    hide Indented, Due, Break, NewLine;
    BreakIsNewLine(indent, depth);
    OpenIndented(indent, open, items + (last + ([close] + rest)), depth, spot);
    CloseIndented(indent, close, rest, depth, Elsewhere);
    assert [open] + (items + ([] + last)) + ([] + [close]) + rest == [open] + (items + (last + ([close] + rest)));
    Regroup(Due(indent, depth, spot), [open], itemsPut, NewLine(Some(indent), depth + 1), lastPut, NewLine(Some(indent), depth), [close],
            Indented(indent, rest, depth, Elsewhere));
  }

  lemma Regroup(lead: Bytes, open: Bytes, items: Bytes, nl: Bytes, last: Bytes, end: Bytes, close: Bytes, rest: Bytes)
    ensures lead + open + (items + (nl + last + (end + close + rest)))
         == lead + (open + (items + (nl + last)) + (end + close)) + rest
  {
  }

  lemma ListIndented(indent: IndentConfig, depth: nat, es: DataList, rest: Bytes, spot: Spot)
    requires ProperElements(es) && !spot.Within?
    ensures Indented(indent, Written(None, depth, List(es)) + rest, depth, spot)
         == Due(indent, depth, spot) + Written(Some(indent), depth, List(es)) + Indented(indent, rest, depth, Elsewhere)
    decreases es, 2
  {
    hide Indented, Due, Break, NewLine;
    NewLineShape(indent, depth);
    NewLineShape(indent, depth + 1);
    match es
    case NoData => EmptyIndented(indent, depth, LBRACKET, RBRACKET, rest, spot);
    case MoreData(init, last) =>
      ArrayText(None, depth, init, last);
      ArrayText(Some(indent), depth, init, last);
      var after := [RBRACKET] + rest;
      ElementsIndented(indent, depth + 1, init, Written(None, depth + 1, last) + after);
      ValueIndented(indent, depth + 1, last, after, LineDue);
      DueIs(indent, depth + 1);
      hide G.ValueText, Render, RenderElements, G.ItemsText;
      BracketIndented(indent, depth, LBRACKET, RBRACKET, Items(None, depth + 1, init), Written(None, depth + 1, last), rest, spot,
                      Items(Some(indent), depth + 1, init), Written(Some(indent), depth + 1, last));
  }

  lemma DueIs(indent: IndentConfig, depth: nat)
    ensures Due(indent, depth, LineDue) == NewLine(Some(indent), depth)
  {
    BreakIsNewLine(indent, depth);
  }

  function Items(indent: Option<IndentConfig>, depth: nat, es: DataList): Bytes
    requires ProperElements(es)
  {
    G.ItemsText(RenderElements(indent, depth, es))
  }

  lemma ItemsSnoc(indent: Option<IndentConfig>, depth: nat, init: DataList, last: Data)
    requires ProperElements(init) && Proper(last)
    ensures Items(indent, depth, MoreData(init, last))
         == Items(indent, depth, init) + (NewLine(indent, depth) + Written(indent, depth, last)) + [COMMA]
  {
    hide NewLine, Render, G.ValueText;
    var nl, v := NewLine(indent, depth), Written(indent, depth, last);
    var items, item := RenderElements(indent, depth, init), G.Item(nl, Render(indent, depth, last), []);
    assert RenderElements(indent, depth, MoreData(init, last)) == G.Items(items, item);
    assert G.ItemsText(G.Items(items, item)) == G.ItemsText(items) + G.Text(item) + [COMMA];
    assert G.Text(item) == nl + v + [] == nl + v;
  }

  lemma {:induction false} ElementsIndented(indent: IndentConfig, depth: nat, es: DataList, rest: Bytes)
    requires ProperElements(es)
    ensures Indented(indent, Items(None, depth, es) + rest, depth, LineDue)
         == Items(Some(indent), depth, es) + Indented(indent, rest, depth, LineDue)
    decreases es, 1
  {
    hide Indented, NewLine, Render, G.ValueText;
    if es.MoreData? {
      var more := Written(None, depth, es.last) + ([COMMA] + rest);
      ElementsIndented(indent, depth, es.init, more);
      ValueIndented(indent, depth, es.last, [COMMA] + rest, LineDue);
      DueIs(indent, depth);
      CommaIndented(indent, rest, depth);
      NewLineShape(indent, depth);
      ItemsSnoc(None, depth, es.init, es.last);
      ItemsSnoc(Some(indent), depth, es.init, es.last);
      hide *;
      Snoc(Items(None, depth, es.init), [], Written(None, depth, es.last), rest);
      Snoc(Items(Some(indent), depth, es.init), NewLine(Some(indent), depth), Written(Some(indent), depth, es.last),
           Indented(indent, rest, depth, LineDue));
    } else {
      assert [] + rest == rest && [] + Indented(indent, rest, depth, LineDue) == Indented(indent, rest, depth, LineDue);
    }
  }

  lemma Snoc(items: Bytes, nl: Bytes, value: Bytes, rest: Bytes)
    ensures items + (nl + value) + [COMMA] + rest == items + (nl + value + ([COMMA] + rest))
    ensures [] + value == value
  {
  }

  // ---------- Objects ----------

  lemma EntryIndented(indent: IndentConfig, depth: nat, name: Bytes, value: Data, rest: Bytes, spot: Spot)
    requires Utf8.ValidUtf8(name) && Proper(value) && !spot.Within?
    ensures Indented(indent, EntryText(None, depth, name, value) + rest, depth, spot)
         == Due(indent, depth, spot) + EntryText(Some(indent), depth, name, value) + Indented(indent, rest, depth, Elsewhere)
    decreases value, 2
  {
    hide Indented, Break, Escaping.Escaped, Render, G.ValueText;
    var v := Written(None, depth, value);
    StringIndented(indent, name, [COLON] + (v + rest), depth, spot);
    ColonIndented(indent, v + rest, depth);
    ValueIndented(indent, depth, value, rest, Elsewhere);
    hide Due, Quoted, Written;
    assert Quoted(name) + [COLON] + ([] + v) + rest == Quoted(name) + ([COLON] + (v + rest));
    EntryParts(Due(indent, depth, spot), Quoted(name), Written(Some(indent), depth, value), Indented(indent, rest, depth, Elsewhere));
  }

  lemma EntryParts(lead: Bytes, quoted: Bytes, value: Bytes, rest: Bytes)
    ensures lead + quoted + ([COLON, SPACE] + ([] + value + rest)) == lead + (quoted + [COLON] + ([SPACE] + value)) + rest
  {
  }

  function Members(indent: Option<IndentConfig>, depth: nat, es: Entries): Bytes
    requires ProperEntries(es)
  {
    G.MembersText(RenderEntries(indent, depth, es))
  }

  lemma MembersAre(indent: Option<IndentConfig>, depth: nat, es: Entries)
    requires ProperEntries(es) && es.Entries?
    ensures Members(indent, depth, es)
         == Members(indent, depth, es.init) + (NewLine(indent, depth) + EntryText(indent, depth, es.name, es.value)) + [COMMA]
  {
    hide NewLine, EntryText, RenderEntries, G.MembersText, G.MemberText, MemberOf;
    MembersSnoc(indent, depth, es);
    EntryIsMember(indent, depth, es.name, es.value, []);
    var nl, entry := NewLine(indent, depth), EntryText(indent, depth, es.name, es.value);
    assert nl + entry + [] == nl + entry;
  }

  lemma {:induction false} EntriesIndented(indent: IndentConfig, depth: nat, es: Entries, rest: Bytes)
    requires ProperEntries(es)
    ensures Indented(indent, Members(None, depth, es) + rest, depth, LineDue)
         == Members(Some(indent), depth, es) + Indented(indent, rest, depth, LineDue)
    decreases es, 1
  {
    hide Indented, NewLine, EntryText, G.MemberText;
    if es.Entries? {
      var entry := EntryText(None, depth, es.name, es.value);
      EntriesIndented(indent, depth, es.init, entry + ([COMMA] + rest));
      EntryIndented(indent, depth, es.name, es.value, [COMMA] + rest, LineDue);
      DueIs(indent, depth);
      CommaIndented(indent, rest, depth);
      NewLineShape(indent, depth);
      MembersAre(None, depth, es);
      MembersAre(Some(indent), depth, es);
      hide *;
      Snoc(Members(None, depth, es.init), [], entry, rest);
      Snoc(Members(Some(indent), depth, es.init), NewLine(Some(indent), depth), EntryText(Some(indent), depth, es.name, es.value),
           Indented(indent, rest, depth, LineDue));
    } else {
      assert [] + rest == rest && [] + Indented(indent, rest, depth, LineDue) == Indented(indent, rest, depth, LineDue);
    }
  }

  lemma DictIndented(indent: IndentConfig, depth: nat, es: Entries, rest: Bytes, spot: Spot)
    requires ProperEntries(es) && !spot.Within?
    ensures Indented(indent, Written(None, depth, Dict(es)) + rest, depth, spot)
         == Due(indent, depth, spot) + Written(Some(indent), depth, Dict(es)) + Indented(indent, rest, depth, Elsewhere)
    decreases es, 2
  {
    hide Indented, Due, Break, NewLine;
    NewLineShape(indent, depth);
    NewLineShape(indent, depth + 1);
    match es
    case NoEntries => EmptyIndented(indent, depth, LBRACE, RBRACE, rest, spot);
    case Entries(init, name, value) =>
      ObjectText(None, depth, init, name, value);
      ObjectText(Some(indent), depth, init, name, value);
      var after := [RBRACE] + rest;
      var entry := EntryText(None, depth + 1, name, value);
      EntriesIndented(indent, depth + 1, init, entry + after);
      EntryIndented(indent, depth + 1, name, value, after, LineDue);
      DueIs(indent, depth + 1);
      hide G.ValueText, Render, RenderEntries, G.MembersText, EntryText;
      BracketIndented(indent, depth, LBRACE, RBRACE, Members(None, depth + 1, init), entry, rest, spot,
                      Members(Some(indent), depth + 1, init), EntryText(Some(indent), depth + 1, name, value));
  }

  // ---------- What is written ----------

  lemma PutAtTop(indent: Option<IndentConfig>, d: Data)
    requires Proper(d)
    ensures Unbounded(Place(indent, Init0, 0), Calls(d)) == Written(indent, 0, d)
  {
    hide Unbounded, Calls, Render, G.ValueText;
    var p := Place(indent, Init0, 0);
    WritesTree(p, d);
    assert Lead(p) == [] && [] + Written(indent, 0, d) == Written(indent, 0, d);
  }

  /** With indentation, any data is written as what is written without, laid out in lines. */
  lemma IndentedIsLaidOut(indent: IndentConfig, d: Data)
    requires Proper(d)
    ensures Unbounded(Place(Some(indent), Init0, 0), Calls(d))
         == Indented(indent, Unbounded(Place(None, Init0, 0), Calls(d)), 0, Elsewhere)
  {
    hide Unbounded, Calls, Written, Break;
    PutAtTop(Some(indent), d);
    PutAtTop(None, d);
    ValueIndented(indent, 0, d, [], Elsewhere);
    var compact, put := Written(None, 0, d), Written(Some(indent), 0, d);
    assert compact + [] == compact && [] + put + [] == put;
  }

  // ---------- And back ----------

  /** `s` without the whitespace outside its strings. */
  function Stripped(s: Bytes, inside: bool): Bytes
    decreases |s|
  {
    if s == [] then []
    else if inside then
      if s[0] == 0x5C && |s| > 1 then [s[0], s[1]] + Stripped(s[2..], true)
      else [s[0]] + Stripped(s[1..], s[0] != 0x22)
    else if s[0] in {0x20, 0x09, 0x0A, 0x0D} then Stripped(s[1..], false)
    else [s[0]] + Stripped(s[1..], s[0] == 0x22)
  }

  lemma {:induction false} BlanksStripped(blank: Bytes, s: Bytes)
    requires forall i :: 0 <= i < |blank| ==> blank[i] in {0x20, 0x09, 0x0A, 0x0D}
    ensures Stripped(blank + s, false) == Stripped(s, false)
    decreases |blank|
  {
    if blank == [] {
      assert blank + s == s;
    } else {
      assert (blank + s)[1..] == blank[1..] + s;
      BlanksStripped(blank[1..], s);
    }
  }

  /** Laying out adds nothing else: without its whitespace, a text is what it was. */
  lemma {:induction false} LayoutAddsBlanks(indent: IndentConfig, s: Bytes, depth: nat, spot: Spot)
    ensures Stripped(Indented(indent, s, depth, spot), spot.Within?) == Stripped(s, spot.Within?)
    decreases |s|
  {
    if s != [] {
      var b, rest := s[0], s[1..];
      hide Break;
      if spot.Within? {
        if b == 0x5C && rest != [] {
          LayoutAddsBlanks(indent, rest[1..], depth, Within);
          TwoStripped(b, rest[0], Indented(indent, rest[1..], depth, Within));
          assert s[2..] == rest[1..];
        } else {
          var next := if b == 0x22 then Elsewhere else Within;
          LayoutAddsBlanks(indent, rest, depth, next);
          QuotedStripped(b, Indented(indent, rest, depth, next), rest);
        }
      } else {
        OutsideStripped(indent, s, depth, spot);
      }
    }
  }

  lemma TwoStripped(a: Byte, b: Byte, s: Bytes)
    requires a == 0x5C
    ensures Stripped([a, b] + s, true) == [a, b] + Stripped(s, true)
  {
    assert ([a, b] + s)[2..] == s;
  }

  lemma QuotedStripped(b: Byte, s: Bytes, rest: Bytes)
    requires b == 0x5C ==> s == [] && rest == []
    ensures Stripped([b] + s, true) == [b] + Stripped(s, b != 0x22)
  {
    assert ([b] + s)[1..] == s;
  }

  lemma OneStripped(b: Byte, s: Bytes)
    ensures Stripped([b] + s, false) == if b in {0x20, 0x09, 0x0A, 0x0D} then Stripped(s, false) else [b] + Stripped(s, b == 0x22)
  {
    assert ([b] + s)[1..] == s;
  }

  lemma OutsideStripped(indent: IndentConfig, s: Bytes, depth: nat, spot: Spot)
    requires s != [] && !spot.Within?
    ensures Stripped(Indented(indent, s, depth, spot), false) == Stripped(s, false)
    decreases |s|, 0
  {
    hide Indented, Break, Due;
    var lead, put, tail, level, next := Step(indent, s, depth, spot);
    var b, rest := s[0], s[1..];
    LayoutAddsBlanks(indent, rest, level, next);
    BlanksStripped(lead, [b] + put);
    OneStripped(b, put);
    if b == 0x3A {
      BlanksStripped([0x20], tail);
    }
    assert [b] + rest == s;
    OneStripped(b, rest);
  }

  lemma BreakIsBlank(indent: IndentConfig, depth: nat)
    ensures forall i :: 0 <= i < |Break(indent, depth)| ==> Break(indent, depth)[i] in {0x20, 0x09, 0x0A, 0x0D}
  {
  }

  /** What is put for one byte outside strings: blanks, the byte, perhaps a space. */
  lemma Step(indent: IndentConfig, s: Bytes, depth: nat, spot: Spot)
    returns (lead: Bytes, put: Bytes, tail: Bytes, level: nat, next: Spot)
    requires s != [] && !spot.Within?
    ensures Indented(indent, s, depth, spot) == lead + ([s[0]] + put)
    ensures forall i :: 0 <= i < |lead| ==> lead[i] in {0x20, 0x09, 0x0A, 0x0D}
    ensures tail == Indented(indent, s[1..], level, next) && put == if s[0] == 0x3A then [0x20] + tail else tail
    ensures next.Within? <==> s[0] == 0x22
  {
    hide Break;
    var b := s[0];
    var closes := b == 0x5D || b == 0x7D;
    level := if closes then Outer(depth) else if b == 0x5B || b == 0x7B then depth + 1 else depth;
    next := if b == 0x5B || b == 0x7B || b == 0x2C then LineDue else if b == 0x22 then Within else Elsewhere;
    lead := if closes then Break(indent, Outer(depth)) else Due(indent, depth, spot);
    BreakIsBlank(indent, Outer(depth));
    BreakIsBlank(indent, depth);
    tail := Indented(indent, s[1..], level, next);
    put := if b == 0x3A then [0x20] + tail else tail;
    if closes {
      Assoc(lead, [b], tail);
    } else if b == 0x3A {
      assert [b, 0x20] + tail == [b] + put;
    }
  }

  // ---------- Without indentation there is nothing to strip ----------

  lemma {:induction false} ScalarTight(x: Bytes, rest: Bytes)
    requires forall i :: 0 <= i < |x| ==> IsScalarByte(x[i]) && x[i] > 0x20
    ensures Stripped(x + rest, false) == x + Stripped(rest, false)
    decreases |x|
  {
    if x == [] {
      assert x + rest == rest;
    } else {
      assert (x + rest)[1..] == x[1..] + rest;
      ScalarTight(x[1..], rest);
    }
  }

  lemma {:induction false} InsideTight(t: Bytes, rest: Bytes)
    ensures Stripped(Escaping.Escaped(t) + rest, true) == Escaping.Escaped(t) + Stripped(rest, true)
    decreases |t|
  {
    if t == [] {
      assert [] + rest == rest;
    } else {
      var first, more := Escaping.EscapeByte(t[0]), Escaping.Escaped(t[1..]);
      InsideTight(t[1..], rest);
      Assoc(first, more, rest);
      ByteTight(t[0], more + rest);
    }
  }

  lemma ByteTight(b: Byte, rest: Bytes)
    ensures Stripped(Escaping.EscapeByte(b) + rest, true) == Escaping.EscapeByte(b) + Stripped(rest, true)
  {
    var e := Escaping.EscapeByte(b);
    if |e| == 6 {
      FourTight(e[2..], rest);
      TwoStripped(e[0], e[1], e[2..] + rest);
      assert e + rest == [e[0], e[1]] + (e[2..] + rest);
    } else if |e| == 2 {
      TwoStripped(e[0], e[1], rest);
    } else {
      QuotedStripped(b, rest, []);
    }
  }

  lemma {:induction false} FourTight(x: Bytes, rest: Bytes)
    requires forall i :: 0 <= i < |x| ==> x[i] != 0x22 && x[i] != 0x5C
    ensures Stripped(x + rest, true) == x + Stripped(rest, true)
    decreases |x|
  {
    if x == [] {
      assert [] + rest == rest;
    } else {
      assert (x + rest)[1..] == x[1..] + rest;
      FourTight(x[1..], rest);
    }
  }

  lemma StringTight(t: Bytes, rest: Bytes)
    ensures Stripped(Quoted(t) + rest, false) == Quoted(t) + Stripped(rest, false)
  {
    hide Escaping.Escaped, Stripped;
    var e := Escaping.Escaped(t);
    assert Quoted(t) + rest == [0x22] + (e + ([0x22] + rest));
    OneStripped(0x22, e + ([0x22] + rest));
    InsideTight(t, [0x22] + rest);
    QuotedStripped(0x22, rest, []);
  }

  lemma SignTight(b: Byte, rest: Bytes)
    requires b in {0x5B, 0x5D, 0x7B, 0x7D, 0x2C, 0x3A}
    ensures Stripped([b] + rest, false) == [b] + Stripped(rest, false)
  {
    OneStripped(b, rest);
  }

  lemma {:induction false} ValueTight(depth: nat, d: Data, rest: Bytes)
    requires Proper(d)
    ensures Stripped(Written(None, depth, d) + rest, false) == Written(None, depth, d) + Stripped(rest, false)
    decreases d, 1
  {
    hide Stripped;
    match d
    case List(es) => ListTight(depth, es, rest);
    case Dict(es) => DictTight(depth, es, rest);
    case Text(t) =>
      hide Escaping.Escaped;
      StringTight(t, rest);
    case _ =>
      hide Written;
      ScalarBytes(d, None, depth);
      ScalarTight(Written(None, depth, d), rest);
  }

  /** A bracketed sequence, whose parts are tight. */
  lemma BracketTight(open: Byte, close: Byte, items: Bytes, last: Bytes, rest: Bytes)
    requires open in {LBRACKET, LBRACE} && close in {RBRACKET, RBRACE}
    requires Stripped(items + (last + ([close] + rest)), false) == items + Stripped(last + ([close] + rest), false)
    requires Stripped(last + ([close] + rest), false) == last + Stripped([close] + rest, false)
    ensures var s := [open] + (items + ([] + last)) + ([] + [close]);
            Stripped(s + rest, false) == s + Stripped(rest, false)
  {
    hide Stripped;
    SignTight(open, items + (last + ([close] + rest)));
    SignTight(close, rest);
    assert [open] + (items + ([] + last)) + ([] + [close]) + rest == [open] + (items + (last + ([close] + rest)));
    assert [open] + (items + (last + ([close] + Stripped(rest, false))))
        == [open] + (items + ([] + last)) + ([] + [close]) + Stripped(rest, false);
  }

  lemma EmptyTight(open: Byte, close: Byte, rest: Bytes)
    requires open in {LBRACKET, LBRACE} && close in {RBRACKET, RBRACE}
    ensures Stripped([open] + [] + [close] + rest, false) == [open] + [] + [close] + Stripped(rest, false)
  {
    hide Stripped;
    SignTight(open, [close] + rest);
    SignTight(close, rest);
    assert [open] + [] + [close] + rest == [open] + ([close] + rest);
  }

  lemma ListTight(depth: nat, es: DataList, rest: Bytes)
    requires ProperElements(es)
    ensures Stripped(Written(None, depth, List(es)) + rest, false) == Written(None, depth, List(es)) + Stripped(rest, false)
    decreases es, 2
  {
    hide Stripped;
    match es
    case NoData => EmptyTight(LBRACKET, RBRACKET, rest);
    case MoreData(init, last) =>
      ArrayText(None, depth, init, last);
      ElementsTight(depth + 1, init, Written(None, depth + 1, last) + ([RBRACKET] + rest));
      ValueTight(depth + 1, last, [RBRACKET] + rest);
      hide G.ValueText, Render, RenderElements, G.ItemsText;
      BracketTight(LBRACKET, RBRACKET, Items(None, depth + 1, init), Written(None, depth + 1, last), rest);
  }

  lemma {:induction false} ElementsTight(depth: nat, es: DataList, rest: Bytes)
    requires ProperElements(es)
    ensures Stripped(Items(None, depth, es) + rest, false) == Items(None, depth, es) + Stripped(rest, false)
    decreases es, 1
  {
    hide Stripped, Render, G.ValueText;
    if es.MoreData? {
      var value := Written(None, depth, es.last);
      ElementsTight(depth, es.init, value + ([COMMA] + rest));
      ValueTight(depth, es.last, [COMMA] + rest);
      SignTight(COMMA, rest);
      ItemsSnoc(None, depth, es.init, es.last);
      assert NewLine(None, depth) == [];
      hide *;
      Snoc(Items(None, depth, es.init), [], value, rest);
      Snoc(Items(None, depth, es.init), [], value, Stripped(rest, false));
    } else {
      assert [] + rest == rest && [] + Stripped(rest, false) == Stripped(rest, false);
    }
  }

  lemma EntryTight(depth: nat, name: Bytes, value: Data, rest: Bytes)
    requires Utf8.ValidUtf8(name) && Proper(value)
    ensures Stripped(EntryText(None, depth, name, value) + rest, false) == EntryText(None, depth, name, value) + Stripped(rest, false)
    decreases value, 2
  {
    hide Stripped, Quoted, Render, G.ValueText;
    var v := Written(None, depth, value);
    StringTight(name, [COLON] + (v + rest));
    SignTight(COLON, v + rest);
    ValueTight(depth, value, rest);
    hide Written;
    assert Quoted(name) + [COLON] + ([] + v) + rest == Quoted(name) + ([COLON] + (v + rest));
    assert Quoted(name) + ([COLON] + (v + Stripped(rest, false))) == Quoted(name) + [COLON] + ([] + v) + Stripped(rest, false);
  }

  lemma {:induction false} EntriesTight(depth: nat, es: Entries, rest: Bytes)
    requires ProperEntries(es)
    ensures Stripped(Members(None, depth, es) + rest, false) == Members(None, depth, es) + Stripped(rest, false)
    decreases es, 1
  {
    hide Stripped, EntryText, G.MemberText;
    if es.Entries? {
      var entry := EntryText(None, depth, es.name, es.value);
      EntriesTight(depth, es.init, entry + ([COMMA] + rest));
      EntryTight(depth, es.name, es.value, [COMMA] + rest);
      SignTight(COMMA, rest);
      MembersAre(None, depth, es);
      assert NewLine(None, depth) == [];
      hide *;
      Snoc(Members(None, depth, es.init), [], entry, rest);
      Snoc(Members(None, depth, es.init), [], entry, Stripped(rest, false));
    } else {
      assert [] + rest == rest && [] + Stripped(rest, false) == Stripped(rest, false);
    }
  }

  lemma DictTight(depth: nat, es: Entries, rest: Bytes)
    requires ProperEntries(es)
    ensures Stripped(Written(None, depth, Dict(es)) + rest, false) == Written(None, depth, Dict(es)) + Stripped(rest, false)
    decreases es, 2
  {
    hide Stripped;
    match es
    case NoEntries => EmptyTight(LBRACE, RBRACE, rest);
    case Entries(init, name, value) =>
      ObjectText(None, depth, init, name, value);
      var entry := EntryText(None, depth + 1, name, value);
      EntriesTight(depth + 1, init, entry + ([RBRACE] + rest));
      EntryTight(depth + 1, name, value, [RBRACE] + rest);
      hide G.ValueText, Render, RenderEntries, G.MembersText, EntryText;
      BracketTight(LBRACE, RBRACE, Members(None, depth + 1, init), entry, rest);
  }

  lemma CompactIsTight(d: Data)
    requires Proper(d)
    ensures var compact := Unbounded(Place(None, Init0, 0), Calls(d)); Stripped(compact, false) == compact
  {
    hide Unbounded, Calls, Written;
    PutAtTop(None, d);
    ValueTight(0, d, []);
    var compact := Written(None, 0, d);
    assert compact + [] == compact;
  }

  /** Whatever the indentation, the output without its line breaks, indentation and
      spaces is the output without indentation. */
  lemma SameWithoutBlanks(indent: IndentConfig, d: Data)
    requires Proper(d)
    ensures Stripped(Unbounded(Place(Some(indent), Init0, 0), Calls(d)), false)
         == Unbounded(Place(None, Init0, 0), Calls(d))
  {
    hide Unbounded, Calls, Indented;
    IndentedIsLaidOut(indent, d);
    CompactIsTight(d);
    LayoutAddsBlanks(indent, Unbounded(Place(None, Init0, 0), Calls(d)), 0, Elsewhere);
  }
}
