// What a writer puts where: the bytes of each call, and the state after it, if
// room were no concern.
module Layouts {
  import opened Base
  import opened Escaping

  datatype Indent = Indent(unit: Byte, count: nat)

  type IndentConfig = i: Indent | (i.unit == SPACE || i.unit == TAB) && i.count > 0 witness Indent(SPACE, 2)

  datatype State = Init0 | Init | AfterKey | AfterValue

  /** Where in its document a writer is. */
  datatype Place = Place(indent: Option<IndentConfig>, state: State, depth: nat)

  datatype Call =
    | Open(bracket: Byte)
    | Close(bracket: Byte)
    | Key(name: Bytes)
    | Str(value: Bytes)
    | Verbatim(text: Bytes)
    | StartString
    | Content(piece: Bytes)
    | EndString

  function Repeated(b: Byte, n: nat): (s: Bytes)
    ensures |s| == n && forall i :: 0 <= i < n ==> s[i] == b
  {
    seq(n, _ => b)
  }

  /** A line break and the indentation of a level, if there is to be any. */
  function NewLine(indent: Option<IndentConfig>, depth: nat): (s: Bytes)
    ensures AllWhitespace(s)
  {
    if indent.None? then [] else [LF] + Repeated(indent.value.unit, indent.value.count * depth)
  }

  /** The line feed comes first, and then as many units as the depth calls for. */
  lemma NewLineShape(indent: IndentConfig, depth: nat)
    ensures var line := NewLine(Some(indent), depth);
            && |line| == 1 + indent.count * depth
            && line[0] == 0x0A
            && forall i :: 1 <= i < |line| ==> line[i] == indent.unit
    ensures NewLine(None, depth) == []
  {
  }

  /** The separator and the indentation due at `p`. */
  function Lead(p: Place): Bytes {
    match p.state
    case Init0 => []
    case Init => NewLine(p.indent, p.depth)
    case AfterKey => if p.indent.Some? then [SPACE] else []
    case AfterValue => [COMMA] + NewLine(p.indent, p.depth)
  }

  function Up(depth: nat): nat {
    if depth == 0 then 0 else depth - 1
  }

  function Quoted(s: Bytes): Bytes {
    [QUOTE] + Escaped(s) + [QUOTE]
  }

  /** A token without what goes before it. */
  function Bare(c: Call): Bytes {
    match c
    case Open(bracket) => [bracket]
    case Close(bracket) => [bracket]
    case Key(name) => Quoted(name) + [COLON]
    case Str(value) => Quoted(value)
    case Verbatim(text) => text
    case StartString => [QUOTE]
    case Content(piece) => Escaped(piece)
    case EndString => [QUOTE]
  }

  function Output(p: Place, c: Call): Bytes {
    match c
    case Close(_) => NewLine(p.indent, Up(p.depth)) + Bare(c)
    case Content(_) => Bare(c)
    case EndString => Bare(c)
    case _ => Lead(p) + Bare(c)
  }

  function Next(p: Place, c: Call): Place {
    match c
    case Open(_) => p.(state := Init, depth := p.depth + 1)
    case Close(_) => p.(state := AfterValue, depth := Up(p.depth))
    case Key(_) => p.(state := AfterKey)
    case StartString => p
    case Content(_) => p
    case _ => p.(state := AfterValue)
  }

  /** The output of a run of calls into a ring without end. */
  function Unbounded(p: Place, calls: seq<Call>): Bytes
    decreases |calls|
  {
    if calls == [] then [] else Output(p, calls[0]) + Unbounded(Next(p, calls[0]), calls[1..])
  }

  function Finally(p: Place, calls: seq<Call>): Place
    decreases |calls|
  {
    if calls == [] then p else Finally(Next(p, calls[0]), calls[1..])
  }

  lemma {:induction false} UnboundedConcat(p: Place, a: seq<Call>, b: seq<Call>)
    ensures Unbounded(p, a + b) == Unbounded(p, a) + Unbounded(Finally(p, a), b)
    ensures Finally(p, a + b) == Finally(Finally(p, a), b)
    decreases |a|
  {
    if a == [] {
      assert a + b == b;
    } else {
      assert (a + b)[1..] == a[1..] + b;
      UnboundedConcat(Next(p, a[0]), a[1..], b);
      hide Output, Next;
    }
  }

  lemma OneCall(p: Place, c: Call)
    ensures Unbounded(p, [c]) == Output(p, c) && Finally(p, [c]) == Next(p, c)
  {
    assert [c][1..] == [];
  }

  // ---------- Strings in pieces ----------

  function Whole(pieces: seq<Bytes>): Bytes {
    if pieces == [] then [] else pieces[0] + Whole(pieces[1..])
  }

  function Contents(pieces: seq<Bytes>): (calls: seq<Call>)
    ensures |calls| == |pieces|
  {
    if pieces == [] then [] else [Content(pieces[0])] + Contents(pieces[1..])
  }

  /** However content is cut into pieces, their output is that of the whole. */
  lemma {:induction false} PiecesOutput(p: Place, pieces: seq<Bytes>)
    ensures Unbounded(p, Contents(pieces)) == Escaped(Whole(pieces)) && Finally(p, Contents(pieces)) == p
  {
    if pieces != [] {
      PiecesOutput(p, pieces[1..]);
      EscapedConcat(pieces[0], Whole(pieces[1..]));
      OneCall(p, Content(pieces[0]));
      hide Escaped;
      UnboundedConcat(p, [Content(pieces[0])], Contents(pieces[1..]));
    }
  }

  /** A string, however many pieces it is written in, is written as it would be at once. */
  lemma PiecesAreWhole(p: Place, pieces: seq<Bytes>)
    ensures var calls := [StartString] + Contents(pieces) + [EndString];
            Unbounded(p, calls) == Output(p, Str(Whole(pieces))) && Finally(p, calls) == Next(p, Str(Whole(pieces)))
  {
    hide Escaped, Lead, Unbounded, Finally, Contents, Whole;
    UnboundedConcat(p, [StartString] + Contents(pieces), [EndString]);
    UnboundedConcat(p, [StartString], Contents(pieces));
    PiecesOutput(p, pieces);
    OneCall(p, StartString);
    OneCall(p, EndString);
    assert Lead(p) + [QUOTE] + Escaped(Whole(pieces)) + [QUOTE] == Lead(p) + Quoted(Whole(pieces));
  }
}
