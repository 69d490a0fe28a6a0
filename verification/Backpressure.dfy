// A writer that meets a full ring, drained now and then by someone else: what
// comes out is what would have come out of a ring without end.
module Backpressure {
  import opened Base
  import opened Rings
  import opened Escaping
  import opened Layouts
  import opened Writers
  import Utf8

  /** Every token fits the ring's whole capacity; content may be of any length. */
  predicate TokensFitRing(p: Place, calls: seq<Call>, capacity: nat)
    decreases |calls|
  {
    calls != [] ==>
      && (if calls[0].Content? then Utf8.ValidUtf8(calls[0].piece) else |Output(p, calls[0])| <= capacity)
      && TokensFitRing(Next(p, calls[0]), calls[1..], capacity)
  }

  /** One attempt at a call: what was left undone of it, if anything. */
  method Attempt(w: Writer, buf: LoopBuf, call: Call) returns (r: Option<Error>)
    requires buf.Valid() && !call.Content?
    modifies w, buf
    ensures buf.Valid() && Atomic(call, buf.capacity, old(w.Place()), old(buf.content), r, w.Place(), buf.content)
  {
    match call
    case Open(bracket) => r := w.WriteOpen(buf, bracket);
    case Close(bracket) => r := w.WriteClose(buf, bracket);
    case Key(name) => r := w.WriteKey(buf, name);
    case Str(value) => r := w.WriteString(buf, value);
    case Verbatim(text) => r := w.WriteVerbatim(buf, text);
    case StartString => r := w.WriteStartString(buf);
    case EndString => r := w.WriteEndString(buf);
  }

  /** Takes some of what is in the ring, at least `least` bytes of it. */
  method Drain(buf: LoopBuf, least: nat) returns (out: Bytes)
    requires buf.Valid() && least <= |buf.content|
    modifies buf
    ensures buf.Valid() && out + buf.content == old(buf.content) && |out| >= least
  {
    var n :| least <= n <= |buf.content|;
    out := buf.content[..n];
    buf.Advance(n);
  }

  /** Repeats a token's call, draining the ring in between, until it is done. */
  method WriteToken(w: Writer, buf: LoopBuf, call: Call) returns (drained: Bytes)
    requires buf.Valid() && !call.Content? && |Output(w.Place(), call)| <= buf.capacity
    modifies w, buf
    ensures buf.Valid() && w.Place() == Next(old(w.Place()), call)
    ensures drained + buf.content == old(buf.content) + Output(old(w.Place()), call)
  {
    hide Output, Next;
    drained := [];
    ghost var before, place := buf.content, w.Place();
    assert [] + before == before;
    while true
      invariant buf.Valid() && w.Place() == place && drained + buf.content == before
      decreases |buf.content|
    {
      ghost var held := buf.content;
      var r := Attempt(w, buf, call);
      if r.None? {
        Assoc(drained, held, Output(place, call));
        return;
      }
      var out := Drain(buf, 1);
      Assoc(drained, out, buf.content);
      drained := drained + out;
    }
  }

  /** Repeats with what is left of a piece of content until all of it is taken. */
  method WriteContent(w: Writer, buf: LoopBuf, piece: Bytes) returns (drained: Bytes)
    requires buf.Valid() && buf.capacity >= 6 && Utf8.ValidUtf8(piece)
    modifies w, buf
    ensures buf.Valid() && w.Place() == old(w.Place())
    ensures drained + buf.content == old(buf.content) + Escaped(piece)
  {
    hide Escaped, Longest, Utf8.ValidUtf8;
    drained := [];
    ghost var before := buf.content;
    var at := 0;
    NothingEscaped(piece, before);
    assert [] + before == before && piece[0..] == piece;
    while at < |piece|
      invariant at <= |piece| && buf.Valid() && w.Place() == old(w.Place()) && Utf8.ValidUtf8(piece[at..])
      invariant drained + buf.content == before + Escaped(piece[..at])
      decreases |piece| - at, |buf.content|
    {
      ghost var held := buf.content;
      var r, taken := w.WriteStringContent(buf, piece[at..]);
      if r.None? {
        TakenFront(piece, at, taken, buf.capacity - |held|);
        Assoc(drained, held, Escaped(piece[at..][..taken]));
        Assoc(before, Escaped(piece[..at]), Escaped(piece[at..][..taken]));
        at := at + taken;
      } else {
        RoomInEmptyRing(piece[at..], taken, buf.capacity - |held|);
        assert buf.content == held by {
          NothingEscaped(piece[at..], held);
        }
        var out := Drain(buf, 1);
        Assoc(drained, out, buf.content);
        drained := drained + out;
      }
    }
    assert piece[..at] == piece;
  }

  lemma TakenFront(piece: Bytes, at: nat, taken: nat, room: nat)
    requires at <= |piece| && Utf8.ValidUtf8(piece[at..]) && Longest(piece[at..], taken, room)
    ensures at + taken <= |piece| && Utf8.ValidUtf8(piece[at + taken..])
    ensures Escaped(piece[..at + taken]) == Escaped(piece[..at]) + Escaped(piece[at..][..taken])
  {
    hide Utf8.ValidUtf8;
    var rest := piece[at..];
    BoundaryCuts(rest, taken);
    assert rest[taken..] == piece[at + taken..];
    assert piece[..at + taken] == piece[..at] + rest[..taken];
    EscapedConcat(piece[..at], rest[..taken]);
  }

  /** An empty ring of six bytes always has room for a character. */
  lemma RoomInEmptyRing(text: Bytes, taken: nat, room: nat)
    requires Utf8.ValidUtf8(text) && text != [] && taken == 0 && Longest(text, taken, room)
    ensures room < 6
  {
    Writer.SixIsEnough(text, room);
  }

  /** Any sequence of calls, whatever the ring holds and however it is drained:
      nothing is lost, doubled or out of order. */
  method WriteAll(w: Writer, buf: LoopBuf, calls: seq<Call>) returns (drained: Bytes)
    requires buf.Valid() && buf.capacity >= 6 && TokensFitRing(w.Place(), calls, buf.capacity)
    modifies w, buf
    ensures buf.Valid() && w.Place() == Finally(old(w.Place()), calls)
    ensures drained + buf.content == old(buf.content) + Unbounded(old(w.Place()), calls)
    decreases |calls|
  {
    hide Output;
    if calls == [] {
      assert [] + buf.content == buf.content + [];
      return [];
    }
    var call := calls[0];
    var idle := Drain(buf, 0);
    ghost var held, place := buf.content, w.Place();
    var first;
    if call.Content? {
      first := WriteContent(w, buf, call.piece);
      ContentOutput(place, call);
    } else {
      first := WriteToken(w, buf, call);
    }
    ghost var between := buf.content;
    var rest := WriteAll(w, buf, calls[1..]);
    Chain(old(buf.content), idle, held, first, between, Output(place, call), rest, buf.content,
          Unbounded(Next(place, call), calls[1..]));
    drained := idle + first + rest;
  }

  lemma ContentOutput(p: Place, call: Call)
    requires call.Content?
    ensures Output(p, call) == Escaped(call.piece) && Next(p, call) == p
  {
  }

  lemma Chain(start: Bytes, idle: Bytes, held: Bytes, first: Bytes, between: Bytes, one: Bytes, rest: Bytes, end: Bytes, others: Bytes)
    requires idle + held == start && first + between == held + one && rest + end == between + others
    ensures idle + first + rest + end == start + (one + others)
  {
    assert idle + first + rest + end == idle + (first + (rest + end));
    assert first + (between + others) == (first + between) + others;
    assert idle + ((held + one) + others) == (idle + held) + (one + others);
  }
}
