// What a handler is told, and when two logs of it say the same.
module Events {
  import opened Base
  import Numbers

  /** Where an event is: the first line and the first column are 1. */
  datatype Pos = Pos(line: nat, column: nat)

  /** Content and whitespace come in pieces, so they carry no position. */
  datatype Event =
    | StartObject(at: Pos)
    | EndObject(at: Pos)
    | StartArray(at: Pos)
    | EndArray(at: Pos)
    | Key(key: Bytes, at: Pos)
    | StartString(at: Pos)
    | Content(text: Bytes)
    | EndString(at: Pos)
    | NumberValue(number: Numbers.Number, at: Pos)
    | BooleanValue(value: bool, at: Pos)
    | NullValue(at: Pos)
    | Whitespace(space: Bytes)

  type Log = seq<Event>

  /** `log` with `e` after it, an adjacent piece of the same kind joined on. */
  function Join(log: Log, e: Event): Log {
    var last := |log| - 1;
    if last >= 0 && e.Content? && log[last].Content? then
      log[..last] + [Content(log[last].text + e.text)]
    else if last >= 0 && e.Whitespace? && log[last].Whitespace? then
      log[..last] + [Whitespace(log[last].space + e.space)]
    else log + [e]
  }

  /** A log as it was delivered, with adjacent pieces joined. */
  function Joined(delivered: Log): Log {
    if delivered == [] then []
    else Join(Joined(delivered[..|delivered| - 1]), delivered[|delivered| - 1])
  }

  lemma JoinedSnoc(delivered: Log, e: Event)
    ensures Joined(delivered + [e]) == Join(Joined(delivered), e)
  {
    assert (delivered + [e])[..|delivered|] == delivered;
  }

  function JoinContent(log: Log, text: Bytes): Log {
    if text == [] then log else Join(log, Content(text))
  }

  function JoinWhitespace(log: Log, space: Bytes): Log {
    if space == [] then log else Join(log, Whitespace(space))
  }

  lemma JoinContentTwice(log: Log, a: Bytes, b: Bytes)
    ensures JoinContent(JoinContent(log, a), b) == JoinContent(log, a + b)
  {
    if a == [] {
      assert a + b == b;
    } else if b == [] {
      assert a + b == a;
    } else if log != [] && log[|log| - 1].Content? {
      var t := log[|log| - 1].text;
      assert (t + a) + b == t + (a + b);
    }
  }

  lemma JoinWhitespaceTwice(log: Log, a: Bytes, b: Bytes)
    ensures JoinWhitespace(JoinWhitespace(log, a), b) == JoinWhitespace(log, a + b)
  {
    if a == [] {
      assert a + b == b;
    } else if b == [] {
      assert a + b == a;
    } else if log != [] && log[|log| - 1].Whitespace? {
      var t := log[|log| - 1].space;
      assert (t + a) + b == t + (a + b);
    }
  }
}
