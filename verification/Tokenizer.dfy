// The tokenizer as it runs: its fields change in place, it works on whole runs
// of bytes, and it consumes only what it can finish. Each method is proved to
// do what the unit-at-a-time machine does.
module Tokenizers {
  import opened Base
  import opened Events
  import opened Machine
  import opened Scanning
  import opened StringRuns
  import Utf8
  import Escapes
  import Numbers
  import Keys
  import opened Passages
  import Chunks
  import NumberRuns
  import WhitespaceRuns
  import opened KeyRuns

  const MIN_DECODE_ROOM := 16
  const KEY_INTERN_DISABLE_THRESHOLD := 64

  /** A handler that writes down what it is told and never fails. */
  class Handler {
    var log: Log

    constructor ()
      ensures log == []
    {
      log := [];
    }

    method Report(e: Event)
      modifies this
      ensures log == old(log) + [e]
    {
      log := log + [e];
    }
  }

  class Locator {
    var line: nat
    var column: nat

    constructor ()
      ensures line == 1 && column == 1
    {
      line, column := 1, 1;
    }

    method AddColumn(delta: nat)
      modifies this
      ensures line == old(line) && column == old(column) + delta
    {
      column := column + delta;
    }
  }

  datatype NestToken = NestObject | NestArray

  function Nest(c: Context): NestToken {
    if c == InObject then NestObject else NestArray
  }

  /** What a byte does to the number in progress. */
  datatype ByteStep = Belongs | Ends | Refused

  /** A run of plain bytes being decoded from `from`, and what was there before. */
  datatype PlainRun = PlainRun(toHandler: bool, s: Bytes, from: nat, before: Log, start: Bytes)

  /** How far into a slice decoding got: all of it, up to malformed bytes, or up to
      a character that the slice cuts short. */
  datatype SliceEnd = AllTaken | Broken | Unsure

  /** How a step went: it is done, it needs more data, or the document is bad. */
  datatype Progress = Done | NeedData | Failed

  /** A piece of content fit to be handed over. */
  predicate GoodPiece(text: Bytes, chunk: nat) {
    0 < |text| <= chunk && Utf8.ValidUtf8(text)
  }

  predicate GoodPieces(log: Log, chunk: nat) {
    forall i :: 0 <= i < |log| && log[i].Content? ==> GoodPiece(log[i].text, chunk)
  }

  /** Interned keys stand for themselves. */
  predicate Interned(table: map<Bytes, Bytes>, chunk: nat) {
    forall k :: k in table ==> table[k] == k && Utf8.ValidUtf8(k) && |k| <= chunk
  }

  /** There are only continuation bytes after the first of the character at `p`, and too few. */
  predicate TooFew(s: Bytes, p: nat)
    requires p < |s|
  {
    |s| - p < Utf8.Width(s[p]) && Followed(s[p..])
  }

  /** Where a slice of the data ends at `end`, inside the character at `p`, that is waited
      for, though it may be malformed. */
  predicate PutOff(s: Bytes, p: nat, end: nat)
    requires p < end <= |s|
  {
    Utf8.CharAt(s[p..end]).Need? && TooFew(s, p)
  }

  /** The room in the buffer decides when a malformed character at the end of the data
      is refused: with a chunk of 16 it is put off, with one of 32 it is not. */
  lemma RoomDecides(wrap: nat)
    requires wrap >= 17
    ensures var s := seq(15, _ => 0x61) + [0xE0, 0x80];
            var input := Spans(s, wrap);
            && Utf8.CharAt(s[15..]).Bad?
            && PutOff(s, 15, |input.Slice(0, Min(|s|, 16))|)
            && !PutOff(s, 15, |input.Slice(0, Min(|s|, 32))|)
  {
    var s: Bytes := seq(15, _ => 0x61) + [0xE0, 0x80];
    assert s[15..16] == [0xE0] && s[15..17] == [0xE0, 0x80] == s[15..];
  }

  class Tokenizer {
    const cfg: Config
    const handler: Handler
    const locator: Locator
    const table: Keys.KeySymbolTable
    const number: Numbers.NumberState

    var contextStack: seq<Context>
    var state: State
    var seenAnyToken: bool
    var depthStack: seq<NestToken>
    var afterComma: bool
    var afterCr: bool
    var internAttempts: nat
    var internHits: nat
    var internDisabled: bool
    var duplicateKeyStack: seq<set<Bytes>>
    var tokenCount: nat
    var inString: bool
    var stringBytes: nat
    var chars: Bytes

    /** What has been delivered, with the decoded characters still to be handed over. */
    ghost function Pending(): Log
      reads `chars, handler
    {
      JoinContent(Joined(handler.log), chars)
    }

    ghost function Abs(): St
      reads this, handler, locator, number
    {
      var mode := if inString then InString(stringBytes)
                  else if number.stage != Numbers.Idle then InNumber(number.Abs())
                  else Plain;
      St(contextStack, state, seenAnyToken, afterComma, afterCr, tokenCount, duplicateKeyStack, mode,
         if inString then Pending() else Joined(handler.log), Pos(locator.line, locator.column))
    }

    ghost predicate DepthMirrors()
      reads `depthStack, `contextStack
    {
      |depthStack| == |contextStack| && forall i :: 0 <= i < |depthStack| ==> depthStack[i] == Nest(contextStack[i])
    }

    ghost predicate BufferValid()
      reads `chars, handler
    {
      cfg.chunk >= MIN_DECODE_ROOM && |chars| <= cfg.chunk && Utf8.ValidUtf8(chars) && GoodPieces(handler.log, cfg.chunk)
    }

    ghost predicate TableValid()
      reads table
    {
      table.Valid() && table.hashOf == Keys.Hash && Interned(table.Table(), cfg.chunk)
    }

    ghost predicate Valid()
      reads this, handler, table, number
    {
      && BufferValid()
      && TableValid()
      && DepthMirrors()
      && (inString ==> number.stage == Numbers.Idle && !Exceeds(stringBytes, cfg.limits.stringLength))
    }

    constructor (cfg: Config, handler: Handler, locator: Locator, table: Keys.KeySymbolTable)
      requires cfg.chunk >= MIN_DECODE_ROOM && handler.log == [] && locator.line == locator.column == 1
      requires table.Valid() && table.hashOf == Keys.Hash && Interned(table.Table(), cfg.chunk)
      ensures this.cfg == cfg && this.handler == handler && this.locator == locator && this.table == table
      ensures fresh(number) && Valid() && Abs() == INITIAL && chars == []
    {
      this.cfg, this.handler, this.locator, this.table := cfg, handler, locator, table;
      number := new Numbers.NumberState();
      contextStack, state, seenAnyToken, depthStack := [], ExpectValue, false, [];
      afterComma, afterCr, internAttempts, internHits, internDisabled := false, false, 0, 0, false;
      duplicateKeyStack, tokenCount, inString, stringBytes, chars := [], 0, false, 0, [];
    }

    // ---------- The character buffer ----------

    /** How many more decoded bytes the buffer can take. */
    function Free(): nat
      requires |chars| <= cfg.chunk
      reads this
    {
      cfg.chunk - |chars|
    }

    /** `[from, p)` has been decoded, onto what the log or, for a key, the buffer held before. */
    ghost predicate Reached(run: PlainRun, p: nat, units: nat)
      reads `chars, handler
    {
      && BufferValid()
      && run.from <= p <= |run.s|
      && WholeChars(run.s, run.from, p)
      && units == Utf8.Utf16Units(run.s[run.from..p])
      && (if run.toHandler then Pending() == JoinContent(run.before, run.s[run.from..p])
          else chars == run.start + run.s[run.from..p])
    }

    method Push(text: Bytes)
      requires BufferValid() && |text| <= Free() && Utf8.ValidUtf8(text)
      modifies `chars
      ensures BufferValid() && chars == old(chars) + text
      ensures Pending() == JoinContent(old(Pending()), text)
    {
      Utf8.ValidUtf8Concat(chars, text);
      JoinContentTwice(Joined(handler.log), chars, text);
      chars := chars + text;
    }

    method PushNext(more: Bytes, ghost run: PlainRun, ghost p: nat, ghost units: nat)
      requires Reached(run, p, units) && |more| <= Free() && Utf8.ValidUtf8(more)
      requires p + |more| <= |run.s| && more == run.s[p..p + |more|]
      modifies `chars
      ensures Reached(run, p + |more|, units + Utf8.Utf16Units(more))
    {
      hide Joined, JoinContent, GoodPieces, Utf8.CharAt, Utf8.ValidUtf8, Utf8.Utf16Units;
      ghost var text := run.s[run.from..p];
      Split(run.s, run.from, p, p + |more|);
      ExtendText(text, more);
      JoinContentTwice(run.before, text, more);
      Assoc(run.start, text, more);
      Push(more);
    }

    /** Delivers what is in the buffer, if anything is. */
    method FlushChars()
      requires BufferValid()
      modifies `chars, handler
      ensures BufferValid() && chars == []
      ensures Pending() == old(Pending())
    {
      if chars != [] {
        JoinedSnoc(handler.log, Content(chars));
        handler.Report(Content(chars));
        chars := [];
      }
    }

    /** Empties the buffer, which only a string can do: a key must fit it. */
    method MakeRoom(toHandler: bool) returns (ok: bool)
      requires BufferValid()
      modifies `chars, handler
      ensures ok == toHandler && BufferValid() && Pending() == old(Pending())
      ensures ok ==> chars == []
      ensures !ok ==> chars == old(chars) && handler.log == old(handler.log)
    {
      ok := toHandler;
      if toHandler {
        FlushChars();
      }
    }

    /** Decodes what is whole of one slice of a run. */
    method DecodeSlice(slice: Bytes, ghost run: PlainRun, ghost p: nat, ghost units: nat)
      returns (taken: nat, added: nat, end: SliceEnd)
      requires Reached(run, p, units)
      requires 0 < |slice| <= Free() && p + |slice| <= |run.s| && slice == run.s[p..p + |slice|]
      modifies `chars
      ensures taken <= |slice| && Reached(run, p + taken, units + added)
      ensures match end
              case AllTaken => taken == |slice|
              case Broken => taken < |slice| && Utf8.CharAt(run.s[p + taken..]).Bad?
              case Unsure => taken < |slice| && Utf8.Width(run.s[p + taken]) >= 2
      ensures !end.AllTaken? ==> (end.Unsure? <==> Utf8.CharAt(run.s[p + taken..p + |slice|]).Need?)
    {
      hide Joined, JoinContent, Utf8.ValidUtf8, Utf8.Utf16Units, Utf8.FromUtf8, Utf16Len;
      SliceTells(run.s, p, slice);
      match Utf8.FromUtf8(slice) {
        case Valid =>
          assert slice[..|slice|] == slice;
          taken, end := |slice|, AllTaken;
        case Invalid(n, cutShort) =>
          taken, end := n, if cutShort then Unsure else Broken;
      }
      Slices(run.s, p, |slice|, taken);
      Utf16LenIsUnits(slice[..taken]);
      PushNext(slice[..taken], run, p, units);
      added := Utf16Len(slice[..taken]);
    }

    /** Decodes the character at `p`, of which the slice has only the front. */
    method DecodeCutCharacter(toHandler: bool, input: Spans, to: nat, p: nat, ghost run: PlainRun, ghost units: nat)
      returns (taken: nat, added: nat, end: SliceEnd)
      requires Reached(run, p, units) && run.s == input.bytes && run.toHandler == toHandler
      requires p < to <= input.Len() && Utf8.Width(run.s[p]) >= 2
      requires to < input.Len() ==> run.s[to] < 0x80
      modifies `chars, handler
      ensures p + taken <= to && Reached(run, p + taken, units + added)
      ensures !toHandler ==> handler.log == old(handler.log)
      ensures match end
              case AllTaken => taken > 0
              case Broken => Utf8.CharAt(run.s[p..]).Bad? || (!toHandler && |run.start| + (to - run.from) > cfg.chunk)
              case Unsure => !Utf8.CharAt(run.s[p..]).Len? && input.Len() - p <= 3
      ensures !end.AllTaken? ==> taken == 0 && (end.Unsure? <==> TooFew(run.s, p))
    {
      hide Joined, JoinContent, Utf8.ValidUtf8, Utf8.Utf16Units;
      taken, added := 0, 0;
      var decoded := DecodeCharAt(input, p);
      match decoded
      case Malformed => end := Broken;
      case CutShort => end := Unsure;
      case Char(c) =>
        CharacterStaysIn(run.s, p, to);
        var ok := EnsureRoom(toHandler, |c|, run, p, units);
        if !ok {
          return taken, added, Broken;
        }
        assert c == run.s[p..p + |c|];
        PushNext(c, run, p, units);
        taken, added, end := |c|, if |c| == 4 then 2 else 1, AllTaken;
    }

    /** Has this much room in the buffer, if need be by handing over what is in it. */
    method EnsureRoom(toHandler: bool, room: nat, ghost run: PlainRun, ghost p: nat, ghost units: nat) returns (ok: bool)
      requires Reached(run, p, units) && run.toHandler == toHandler && room <= MIN_DECODE_ROOM
      modifies `chars, handler
      ensures Reached(run, p, units)
      ensures ok ==> Free() >= room
      ensures !ok ==> !toHandler && |run.start| + (p - run.from) + room > cfg.chunk
      ensures !toHandler ==> handler.log == old(handler.log)
    {
      hide WholeChars, Utf8.Utf16Units, Utf8.ValidUtf8, Joined, JoinContent, GoodPieces;
      ok := true;
      if Free() < room {
        ok := MakeRoom(toHandler);
      }
    }

    /** Decodes one slice of a run, and the character it cuts short if it does. */
    method DecodeSome(toHandler: bool, input: Spans, to: nat, p: nat, ghost run: PlainRun, ghost units: nat)
      returns (taken: nat, added: nat, end: SliceEnd)
      requires Reached(run, p, units) && run.s == input.bytes && run.toHandler == toHandler
      requires p < to <= input.Len() && (to < input.Len() ==> run.s[to] < 0x80)
      modifies `chars, handler
      ensures p + taken <= to && Reached(run, p + taken, units + added)
      ensures !toHandler ==> handler.log == old(handler.log)
      ensures match end
              case AllTaken => taken > 0
              case Broken => p + taken < to && (Utf8.CharAt(run.s[p + taken..]).Bad? || (!toHandler && |run.start| + (to - run.from) > cfg.chunk))
              case Unsure => p + taken < to && !Utf8.CharAt(run.s[p + taken..]).Len? && input.Len() - (p + taken) <= 3
    {
      hide Utf8.CharAt, Utf8.Width, WholeChars, Utf8.ValidUtf8, Utf8.Utf16Units, Joined, JoinContent, GoodPieces, Pending;
      taken, added := 0, 0;
      // a string is delivered early rather than in tiny pieces; a key cannot be
      var ok := EnsureRoom(toHandler, if toHandler then MIN_DECODE_ROOM else 1, run, p, units);
      if !ok {
        return taken, added, Broken;
      }
      taken, added, end := DecodeHere(toHandler, input, to, p, run, units);
    }

    /** The same, once there is room. */
    method DecodeHere(toHandler: bool, input: Spans, to: nat, p: nat, ghost run: PlainRun, ghost units: nat)
      returns (taken: nat, added: nat, end: SliceEnd)
      requires Reached(run, p, units) && run.s == input.bytes && run.toHandler == toHandler && |chars| < cfg.chunk
      requires p < to <= input.Len() && (to < input.Len() ==> run.s[to] < 0x80)
      modifies `chars, handler
      ensures p + taken <= to && Reached(run, p + taken, units + added)
      ensures !toHandler ==> handler.log == old(handler.log)
      ensures match end
              case AllTaken => taken > 0
              case Broken => p + taken < to && (Utf8.CharAt(run.s[p + taken..]).Bad? || (!toHandler && |run.start| + (to - run.from) > cfg.chunk))
              case Unsure => p + taken < to && !Utf8.CharAt(run.s[p + taken..]).Len? && input.Len() - (p + taken) <= 3
      ensures var sliceEnd := p + |input.Slice(p, Min(to - p, old(Free())))|;
              !end.AllTaken? ==> p + taken < sliceEnd && (end.Unsure? <==> PutOff(run.s, p + taken, sliceEnd))
    {
      hide Reached, Utf8.CharAt, Utf8.Width, Utf8.ValidUtf8, Utf8.Utf16Units, Joined, JoinContent, GoodPieces, Pending, BufferValid;
      var slice := input.Slice(p, Min(to - p, Free()));
      taken, added, end := DecodeSlice(slice, run, p, units);
      if !end.Unsure? {
        return;
      }
      var more, units';
      more, units', end := DecodeCutCharacter(toHandler, input, to, p + taken, run, units + added);
      taken, added := taken + more, added + units';
    }

    /** Decodes a plain run slice by slice, each as long as there is room for. It
        ends early only inside a character whose end has not arrived, and fails
        only on malformed bytes or, for a key, for want of room. */
    method DecodeRun(toHandler: bool, input: Spans, from: nat, to: nat)
      returns (ok: bool, next: nat, units: nat)
      requires BufferValid() && from < to <= input.Len()
      requires to < input.Len() ==> input.bytes[to] < 0x80
      modifies `chars, handler
      ensures from <= next <= to
      ensures Reached(PlainRun(toHandler, input.bytes, from, old(Pending()), old(chars)), next, units)
      ensures ok && next < to ==> !Utf8.CharAt(input.bytes[next..]).Len? && input.Len() - next <= 3
      ensures !ok ==> next < to
                      && (Utf8.CharAt(input.bytes[next..]).Bad? || (!toHandler && |old(chars)| + (to - from) > cfg.chunk))
      ensures !toHandler ==> handler.log == old(handler.log)
    {
      hide Utf8.CharAt, WholeChars, Utf8.ValidUtf8, Utf8.Utf16Units, Joined, JoinContent, GoodPieces, Pending;
      ghost var run := PlainRun(toHandler, input.bytes, from, Pending(), chars);
      next, units := from, 0;
      EmptyRun(run.s, from, run.before, run.start);
      while next < to
        invariant next <= to && Reached(run, next, units)
        invariant !toHandler ==> handler.log == old(handler.log)
      {
        var taken, added, end := DecodeSome(toHandler, input, to, next, run, units);
        next, units := next + taken, units + added;
        if !end.AllTaken? {
          return end.Unsure?, next, units;
        }
      }
      ok := true;
    }

    // ---------- String values ----------

    /** Neither in a string nor in a number. */
    ghost predicate Between()
      reads `inString, number
    {
      !inString && number.stage == Numbers.Idle
    }

    /** What is left from `c` is not all there for the machine either. */
    ghost predicate Stuck(s: Bytes, c: nat)
      requires c <= |s|
      reads this, handler, locator, number
    {
      c < |s| ==> Waits(cfg, Abs(), s[c..])
    }

    /** Consumes the run of plain bytes `[c, runEnd)` of a string value. */
    method TakePlainRun(input: Spans, c: nat, runEnd: nat) returns (r: Progress, next: nat)
      requires Valid() && inString && c < runEnd <= input.Len()
      requires AllPlain(input.bytes[c..runEnd]) && (runEnd < input.Len() ==> !IsPlain(input.bytes[runEnd]))
      modifies `chars, `stringBytes, handler, locator
      ensures Valid()
      ensures c <= next <= runEnd
      ensures if r.Failed? then Run(cfg, old(Abs()), input.bytes[c..]).Fail?
              else Leads(cfg, old(Abs()), input.bytes[c..], Abs(), input.bytes[next..])
      ensures r.Done? ==> next == runEnd
      ensures r.NeedData? ==> chars == [] && Stuck(input.bytes, next)
    {
      hide TableValid, DepthMirrors, BufferValid, Run, Leads, Unit, TakeText, JoinContent, Joined, Utf8.CharAt, Utf8.ValidUtf8, Utf8.Utf16Units;
      ghost var s, st, raw := input.bytes, Abs(), stringBytes;
      From(s, c, runEnd - c);
      next := c;
      if Exceeds(stringBytes + (runEnd - c), cfg.limits.stringLength) {
        RunPlainTooLong(cfg, st, raw, s[c..], runEnd - c);
        return Failed, next;
      }
      var ok, reached, units := DecodeRun(true, input, c, runEnd);
      RunOver(cfg, st, raw, s, c, reached, runEnd);
      if !ok {
        return Failed, next;
      }
      next := reached;
      CountText(next - c, units, st, s[c..next]);
      r := Done;
      if next < runEnd {
        FlushString();
        r := NeedData;
      }
    }

    /** Counts the text just decoded, `n` bytes of it. */
    method CountText(n: nat, units: nat, ghost st: St, ghost text: Bytes)
      requires Valid() && inString && n == |text| && !Exceeds(stringBytes + n, cfg.limits.stringLength)
      requires Utf8.ValidUtf8(text) && units == Utf8.Utf16Units(text)
      requires Abs() == st.(log := JoinContent(st.log, text))
      modifies `stringBytes, locator
      ensures Valid() && Abs() == TakeText(st, old(stringBytes), text)
    {
      hide TableValid, DepthMirrors, BufferValid, Pending, JoinContent, Utf8.ValidUtf8, Utf8.Utf16Units;
      stringBytes := stringBytes + n;
      locator.AddColumn(units);
    }

    /** Adds a character, making room for it if need be. */
    method PushScalar(cp: int)
      requires BufferValid() && Utf8.IsScalar(cp)
      modifies `chars, handler
      ensures BufferValid() && Pending() == JoinContent(old(Pending()), Utf8.Encode(cp))
    {
      hide Joined, JoinContent, GoodPieces, Utf8.Encode, Utf8.ValidUtf8;
      Utf8.EncodeIsCharacter(cp);
      if |Utf8.Encode(cp)| > Free() {
        FlushChars();
      }
      Push(Utf8.Encode(cp));
    }

    /** Takes the character that an escape of `n` bytes stands for. */
    method TakeScalar(cp: int, n: nat) returns (ok: bool)
      requires Valid() && inString && Utf8.IsScalar(cp)
      modifies `chars, `stringBytes, handler, locator
      ensures Valid() && ok == !Exceeds(old(stringBytes) + n, cfg.limits.stringLength)
      ensures ok ==> Abs() == Advance(old(Abs()), n).(log := JoinContent(old(Abs()).log, Utf8.Encode(cp)), mode := InString(old(stringBytes) + n))
    {
      hide TableValid, DepthMirrors, BufferValid, Pending, JoinContent, Joined, Utf8.Encode;
      PushScalar(cp);
      ok := !Exceeds(stringBytes + n, cfg.limits.stringLength);
      if ok {
        stringBytes := stringBytes + n;
        locator.AddColumn(n);
      }
    }

    /** Consumes the escape at `c` of a string value. */
    method TakeEscape(input: Spans, c: nat) returns (r: Progress, next: nat)
      requires Valid() && inString && c < input.Len() && input.bytes[c] == BACKSLASH
      modifies `chars, `stringBytes, handler, locator
      ensures Valid()
      ensures c <= next <= input.Len() && (r.Done? ==> c < next)
      ensures if r.Failed? then Run(cfg, old(Abs()), input.bytes[c..]).Fail?
              else Leads(cfg, old(Abs()), input.bytes[c..], Abs(), input.bytes[next..])
      ensures r.NeedData? ==> next == c && chars == [] && Stuck(input.bytes, next)
    {
      hide TableValid, DepthMirrors, BufferValid, Pending, Run, Leads, JoinContent, Joined, Utf8.Encode, Escapes.Resolve;
      ghost var s, st := input.bytes, Abs();
      next := c;
      EscapeUnit(cfg, st, stringBytes, s[c..]);
      hide Unit;
      var resolved := ResolveEscape(input, c);
      match resolved
      case Bad =>
        Chunks.RunFails(cfg, st, s[c..]);
        return Failed, next;
      case Need =>
        FlushString();
        LeadsNowhere(cfg, st, s[c..]);
        return NeedData, next;
      case Char(cp, n) =>
        next := c + n;
        var ok := TakeScalar(cp, n);
        if !ok {
          Chunks.RunFails(cfg, st, s[c..]);
          return Failed, next;
        }
        From(s, c, n);
        LeadsOne(cfg, st, s[c..], Abs(), n);
        r := Done;
    }

    /** Consumes the closing quote at `c` of a string value. */
    method CloseString(input: Spans, c: nat)
      requires Valid() && inString && c < input.Len() && input.bytes[c] == QUOTE
      modifies `chars, `inString, `state, handler, locator
      ensures Valid() && !inString
      ensures Leads(cfg, old(Abs()), input.bytes[c..], Abs(), input.bytes[c + 1..])
    {
      hide TableValid, DepthMirrors, Run, Leads, Joined, GoodPieces, Utf8.CharAt, Utf8.ValidUtf8;
      ghost var s, st := input.bytes, Abs();
      FlushChars();
      locator.AddColumn(1);
      inString := false;
      state := AfterValue;
      ReportEvent(Event.EndString(Pos(locator.line, locator.column)));
      From(s, c, 1);
      assert Unit(cfg, st, s[c..]) == Go(Abs(), 1);
      LeadsOne(cfg, st, s[c..], Abs(), 1);
    }

    /** Reports an event other than content. */
    method ReportEvent(e: Event)
      requires BufferValid() && !e.Content?
      modifies handler
      ensures BufferValid() && Joined(handler.log) == Join(old(Joined(handler.log)), e)
    {
      JoinedSnoc(handler.log, e);
      handler.Report(e);
    }

    /** Hands over what is decoded of a string, before waiting for more of it. */
    method FlushString()
      requires Valid() && inString
      modifies `chars, handler
      ensures Valid() && chars == [] && Abs() == old(Abs())
    {
      hide TableValid, DepthMirrors, Joined, JoinContent;
      FlushChars();
    }

    lemma StringMode()
      requires inString
      ensures Abs().mode == InString(stringBytes)
    {
    }

    /** Reads on in a string, up to and including its closing quote if that is there. */
    method ContinueString(input: Spans, c: nat) returns (r: Progress, next: nat)
      requires Valid() && inString && c <= input.Len()
      modifies this, handler, locator
      ensures Valid()
      ensures c <= next <= input.Len()
      ensures if r.Failed? then Run(cfg, old(Abs()), input.bytes[c..]).Fail?
              else Leads(cfg, old(Abs()), input.bytes[c..], Abs(), input.bytes[next..])
      ensures r.Done? ==> !inString && c < next
      ensures r.NeedData? ==> inString && chars == [] && Stuck(input.bytes, next)
    {
      hide TableValid, DepthMirrors, BufferValid, Abs, Run, Leads, Unit;
      ghost var s, st := input.bytes, Abs();
      next := c;
      LeadsNowhere(cfg, st, s[c..]);
      while true
        invariant c <= next <= input.Len() && Valid() && inString
        invariant Leads(cfg, st, s[c..], Abs(), s[next..])
        decreases input.Len() - next
      {
        ghost var mid, at := Abs(), next;
        var runEnd := ScanPlain(input, next, input.Len());
        if runEnd > next {
          r, next := TakePlainRun(input, next, runEnd);
          Onward(cfg, st, s[c..], mid, s[at..], Abs(), s[next..], r.Failed?);
          if !r.Done? {
            return;
          }
          mid, at := Abs(), next;
        }
        if runEnd == input.Len() {
          FlushString();
          return NeedData, next;
        }
        var b := input.bytes[runEnd];
        if b == QUOTE {
          CloseString(input, next);
          Onward(cfg, st, s[c..], mid, s[at..], Abs(), s[next + 1..], false);
          return Done, next + 1;
        }
        if b != BACKSLASH {
          StringMode();
          ControlCharacter(cfg, Abs(), s[next..]);
          Onward(cfg, st, s[c..], mid, s[at..], mid, s[at..], true);
          return Failed, next;
        }
        r, next := TakeEscape(input, next);
        Onward(cfg, st, s[c..], mid, s[at..], Abs(), s[next..], r.Failed?);
        if !r.Done? {
          return;
        }
      }
    }

    // ---------- Numbers ----------

    /** Takes a byte into the number in progress, but for its length. */
    method TakeNumberByte(b: Byte) returns (step: ByteStep)
      requires number.stage != Numbers.Idle
      modifies number
      ensures match Numbers.TakeByte(old(number.Abs()), b)
              case Next(num) => step.Belongs? && number.Abs() == num
              case End => step.Ends? && number.Abs() == old(number.Abs())
              case Reject => step.Refused?
    {
      hide Numbers.TakeDigit, Numbers.TakeExponentDigit, Numbers.AfterDigits;
      step := Belongs;
      match number.stage
      case AfterMinus =>
        if b == ZERO {
          number.stage := Numbers.Zero;
        } else if IsDigit(b) {
          number.stage := Numbers.Integer;
          number.AddDigit(b - ZERO, false);
        } else {
          step := Refused;
        }
      case Zero =>
        if IsDigit(b) {
          step := Refused;
        } else {
          step := EndDigits(b, true);
        }
      case Integer =>
        if IsDigit(b) {
          number.AddDigit(b - ZERO, false);
        } else {
          step := EndDigits(b, true);
        }
      case FractionDot =>
        if IsDigit(b) {
          number.stage := Numbers.Fraction;
          number.AddDigit(b - ZERO, true);
        } else {
          step := Refused;
        }
      case Fraction =>
        if IsDigit(b) {
          number.AddDigit(b - ZERO, true);
        } else {
          step := EndDigits(b, false);
        }
      case ExponentMark =>
        if b == PLUS || b == MINUS {
          number.exponentNegative := b == MINUS;
          number.stage := Numbers.ExponentSign;
        } else if IsDigit(b) {
          number.stage := Numbers.Exponent;
          number.AddExponentDigit(b - ZERO);
        } else {
          step := Refused;
        }
      case ExponentSign =>
        if IsDigit(b) {
          number.stage := Numbers.Exponent;
          number.AddExponentDigit(b - ZERO);
        } else {
          step := Refused;
        }
      case Exponent =>
        if IsDigit(b) {
          number.AddExponentDigit(b - ZERO);
        } else {
          step := Ends;
        }
    }

    /** A byte after the digits of the integer or the fraction. */
    method EndDigits(b: Byte, integer: bool) returns (step: ByteStep)
      modifies number
      ensures match Numbers.AfterDigits(old(number.Abs()), b, integer)
              case Next(num) => step.Belongs? && number.Abs() == num
              case _ => step.Ends? && number.Abs() == old(number.Abs())
    {
      if integer && b == DOT {
        number.isReal := true;
        number.stage := Numbers.FractionDot;
        step := Belongs;
      } else if Numbers.IsExponentMark(b) {
        number.isReal := true;
        number.stage := Numbers.ExponentMark;
        step := Belongs;
      } else {
        step := Ends;
      }
    }

    /** Delivers the number and leaves the number mode. */
    method EmitNumber()
      requires Valid() && !inString && number.stage != Numbers.Idle
      modifies number, `state, handler, locator
      ensures Valid() && number.stage == Numbers.Idle
      ensures Abs() == Machine.EmitNumber(old(Abs()), old(number.Abs()))
    {
      hide TableValid, DepthMirrors, Joined;
      var value := Numbers.NumberValue(NumberNow());
      number.stage := Numbers.Idle;
      state := AfterValue;
      locator.AddColumn(number.length);
      ReportEvent(Event.NumberValue(value, Pos(locator.line, locator.column)));
    }

    /** The accumulators, for computing the value. */
    function NumberNow(): (num: Numbers.Num)
      reads number
      ensures num == number.Abs()
    {
      Numbers.Num(number.stage, number.negative, number.isReal, number.length, number.mantissa, number.full, number.shift,
                  number.droppedNonZero, number.firstDropped, number.exponentNegative, number.exponent, number.bigDigits)
    }

    /** Takes the digits at `c`, all at once. */
    method TakeDigits(input: Spans, c: nat) returns (r: Progress, next: nat)
      requires Valid() && !inString && c < input.Len() && Numbers.InDigits(number.Abs()) && !number.full
      modifies number
      ensures Valid() && c <= next <= input.Len() && r != NeedData
      ensures if r.Failed? then Run(cfg, old(Abs()), input.bytes[c..]).Fail?
              else Leads(cfg, old(Abs()), input.bytes[c..], Abs(), input.bytes[next..])
      ensures r.Done? ==> Numbers.InDigits(number.Abs())
    {
      hide TableValid, DepthMirrors, BufferValid, Joined, Run, Leads, Numbers.Digits;
      ghost var s, st, num := input.bytes, Abs(), number.Abs();
      var span := input.SpanFrom(c);
      var taken := number.TakeDigitRun(span);
      Slices(s, c, |span|, taken);
      next := c + taken;
      Cut(s, c, taken);
      if taken > 0 && Exceeds(number.length, cfg.limits.numberLength) {
        NumberRuns.RunDigitsTooLong(cfg, st, num, s[c..next], s[next..]);
        return Failed, next;
      }
      r := Done;
      if taken > 0 {
        NumberRuns.RunDigits(cfg, st, num, s[c..next], s[next..]);
      } else {
        assert s[c..next] == [];
        Numbers.NoDigits(num);
        LeadsNowhere(cfg, st, s[c..]);
      }
    }

    /** Takes the byte at `c`, which belongs to the number, ends it (and is left),
        or is an error. */
    method TakeOne(input: Spans, c: nat) returns (r: Progress, next: nat)
      requires Valid() && !inString && c < input.Len() && number.stage != Numbers.Idle
      modifies number, `state, handler, locator
      ensures Valid() && c <= next <= c + 1
      ensures if r.Failed? then Run(cfg, old(Abs()), input.bytes[c..]).Fail?
              else Leads(cfg, old(Abs()), input.bytes[c..], Abs(), input.bytes[next..])
      ensures r.Done? ==> number.stage == Numbers.Idle
      ensures r.NeedData? ==> next == c + 1 && number.stage != Numbers.Idle
    {
      hide TableValid, DepthMirrors, BufferValid, Joined, Run, Leads, Numbers.TakeByte;
      ghost var s, st, num := input.bytes, Abs(), number.Abs();
      next := c;
      From(s, c, 1);
      var step := TakeNumberByte(input.bytes[c]);
      match step
      case Refused =>
        Chunks.RunFails(cfg, st, s[c..]);
        return Failed, next;
      case Ends =>
        EmitNumber();
        assert s[c..][0..] == s[c..];
        LeadsOne(cfg, st, s[c..], Abs(), 0);
        return Done, next;
      case Belongs =>
        next := c + 1;
        number.length := number.length + 1;
        if Exceeds(number.length, cfg.limits.numberLength) {
          Chunks.RunFails(cfg, st, s[c..]);
          return Failed, next;
        }
        LeadsOne(cfg, st, s[c..], Abs(), 1);
        r := NeedData;
    }

    /** Reads on in a number. The byte that ends it is not taken. */
    method ContinueNumber(input: Spans, c: nat) returns (r: Progress, next: nat)
      requires Valid() && !inString && c <= input.Len() && number.stage != Numbers.Idle
      modifies number, `state, handler, locator
      ensures Valid() && c <= next <= input.Len()
      ensures if r.Failed? then Run(cfg, old(Abs()), input.bytes[c..]).Fail?
              else Leads(cfg, old(Abs()), input.bytes[c..], Abs(), input.bytes[next..])
      ensures r.Done? ==> number.stage == Numbers.Idle
      ensures r.NeedData? ==> next == input.Len()
    {
      hide TableValid, DepthMirrors, BufferValid, Abs, Run, Leads;
      ghost var s, st := input.bytes, Abs();
      next := c;
      LeadsNowhere(cfg, st, s[c..]);
      while next < input.Len()
        invariant c <= next <= input.Len() && Valid() && number.stage != Numbers.Idle
        invariant Leads(cfg, st, s[c..], Abs(), s[next..])
      {
        ghost var mid, at := Abs(), next;
        if !number.full && (number.stage == Numbers.Integer || number.stage == Numbers.Fraction) {
          r, next := TakeDigits(input, next);
          Onward(cfg, st, s[c..], mid, s[at..], Abs(), s[next..], r.Failed?);
          if r.Failed? {
            return;
          }
          if next == input.Len() {
            break;
          }
          mid, at := Abs(), next;
        }
        r, next := TakeOne(input, next);
        Onward(cfg, st, s[c..], mid, s[at..], Abs(), s[next..], r.Failed?);
        if !r.NeedData? {
          return;
        }
      }
      r := NeedData;
    }

    // ---------- Keys ----------

    /** Looks for the end of the key whose opening quote is at `c`. */
    method ScanForKeyEnd(input: Spans, c: nat) returns (scan: KeyScan, hasEscape: bool)
      requires c < input.Len()
      ensures scan == ScanKey(input.bytes[c..], 1, cfg.limits.nameLength)
      ensures scan.KeyEnd? && !hasEscape ==> AllPlain(input.bytes[c + 1..c + scan.end])
    {
      ghost var s := input.bytes[c..];
      hasEscape := false;
      var i := c + 1;
      while true
        invariant c < i && (!hasEscape ==> i <= input.Len() && AllPlain(input.bytes[c + 1..i]))
        invariant ScanKey(s, 1, cfg.limits.nameLength) == ScanKey(s, i - c, cfg.limits.nameLength)
        decreases input.Len() - i
      {
        if i >= input.Len() {
          return KeyNeed, hasEscape;
        }
        if Exceeds(i - c - 1, cfg.limits.nameLength) {
          return KeyBad, hasEscape;
        }
        var b := input.bytes[i];
        assert s[i - c] == b;
        if b == QUOTE {
          return KeyEnd(i - c), hasEscape;
        }
        if b == BACKSLASH {
          hasEscape := true;
          i := i + 2;
          continue;
        }
        if b < SPACE {
          return KeyBad, hasEscape;
        }
        if !hasEscape {
          PlainMore(input.bytes, c + 1, i);
        }
        i := i + 1;
      }
    }

    /** Decodes the plain run `[p, to)` of a key. */
    method DecodeKeyRun(input: Spans, p: nat, to: nat, end: nat, ghost t: Bytes, ghost n: nat, ghost units: nat)
      returns (ok: bool, added: nat)
      requires BufferValid() && p < to <= end < input.Len()
      requires AllPlain(input.bytes[p..to]) && !IsPlain(input.bytes[to])
      requires KeyReached(t, chars, n, units, input.bytes[p..end + 1])
      modifies `chars, handler
      ensures BufferValid() && handler.log == old(handler.log)
      ensures if ok then KeyReached(t, chars, n + (to - p), units + added, input.bytes[to..end + 1])
              else !Readable(ReadString(t), cfg.chunk)
    {
      hide KeyReached, Readable, ReadString, Joined, JoinContent, GoodPieces, Utf8.CharAt, Utf8.ValidUtf8, Utf8.Utf16Units;
      ghost var s, text := input.bytes, chars;
      Split(s, p, to, end + 1);
      KeyRunReached(t, text, n, units, s[p..to], s[to..end + 1], cfg.chunk);
      var next;
      ok, next, added := DecodeRun(false, input, p, to);
      if next < to && !Utf8.CharAt(s[next..]).Len? {
        RunNotWhole(s, p, next, to);
      }
      ok := ok && next == to;
    }

    /** Decodes the escape at `p` of a key. */
    method DecodeKeyEscape(input: Spans, p: nat, end: nat, ghost t: Bytes, ghost n: nat, ghost units: nat, ghost doomed: bool)
      returns (ok: bool, len: nat, ghost nowDoomed: bool)
      requires BufferValid() && p < end < input.Len() && input.bytes[p] == BACKSLASH
      requires KeyProgress(t, n, units, input.bytes, p, end, doomed)
      modifies `chars
      ensures BufferValid()
      ensures if ok then
                p < p + len <= end && KeyProgress(t, n + len, units + len, input.bytes, p + len, end, nowDoomed)
              else !Readable(ReadString(t), cfg.chunk)
    {
      hide Prepend, ReadString, Closes, KeyReached, Readable, Pending, Joined, JoinContent, GoodPieces, Utf8.ValidUtf8, Utf8.Encode, Escapes.Resolve;
      var resolved := ResolveEscape(input, p);
      nowDoomed := doomed;
      if !doomed {
        nowDoomed := KeyEscape(t, chars, n, units, input.bytes, p, end, cfg.chunk);
      } else {
        DoomedUnreadable(t, input.bytes, p, end, cfg.chunk);
      }
      if !resolved.Char? {
        return false, 0, nowDoomed;
      }
      len := resolved.len;
      var character := Utf8.Encode(resolved.cp);
      if |character| > Free() {
        return false, len, nowDoomed;
      }
      Utf8.EncodeIsCharacter(resolved.cp);
      Push(character);
      ok := true;
    }

    static lemma DoomedUnreadable(t: Bytes, s: Bytes, p: nat, end: nat, chunk: nat)
      requires end < |s| && Doomed(t, s, p, end)
      ensures !Readable(ReadString(t), chunk) && Escapes.Resolve(s[p..]).Bad?
    {
    }

    /** How far into the key `t` decoding has got: to `p`, after `n` bytes. */
    ghost predicate KeyProgress(t: Bytes, n: nat, units: nat, s: Bytes, p: nat, end: nat, doomed: bool)
      requires p <= end < |s|
      reads `chars
    {
      if doomed then Doomed(t, s, p, end) else KeyReached(t, chars, n, units, s[p..end + 1])
    }

    static lemma FirstPlain(s: Bytes, p: nat, q: nat)
      requires p <= q <= |s| && AllPlain(s[p..q])
      ensures q > p ==> IsPlain(s[p])
    {
      if q > p {
        assert s[p..q][0] == s[p];
      }
    }

    /** Decodes a key whose closing quote has been found, at `end`. */
    method DecodeKey(input: Spans, start: nat, end: nat) returns (ok: bool, units: nat)
      requires BufferValid() && chars == [] && start <= end < input.Len()
      requires Closes(input.bytes[start..end + 1])
      modifies `chars, handler
      ensures BufferValid() && handler.log == old(handler.log)
      ensures var r := ReadString(input.bytes[start..end + 1]);
              && ok == Readable(r, cfg.chunk)
              && (ok ==> chars == r.text && units == r.units)
    {
      hide Prepend, ReadString, Closes, Joined, GoodPieces, Utf8.CharAt, Utf8.ValidUtf8, Utf8.Encode, Escapes.Resolve;
      ghost var s, t := input.bytes, input.bytes[start..end + 1];
      var p := start;
      units := 0;
      ghost var doomed := false;
      KeyStart(t);
      ClosingQuote(t);
      while p < end
        invariant start <= p <= end && BufferValid() && handler.log == old(handler.log)
        invariant KeyProgress(t, p - start, units, s, p, end, doomed)
      {
        var runEnd := ScanPlain(input, p, end);
        if doomed {
          FirstPlain(s, p, runEnd);
        } else {
          KeyStopsAt(s, p, runEnd, end);
        }
        var added;
        if runEnd > p {
          ok, added := DecodeKeyRun(input, p, runEnd, end, t, p - start, units);
          if !ok {
            return;
          }
          units := units + added;
          p := runEnd;
        }
        if p >= end {
          break;
        }
        ok, added, doomed := DecodeKeyEscape(input, p, end, t, p - start, units, doomed);
        if !ok {
          return;
        }
        units := units + added;
        p := p + added;
      }
      assert s[p..end + 1] == [QUOTE];
      KeyDone(t, chars, p - start, units);
      ok := true;
    }

    /** Finds the key `[start, end)`: short and plain ones in the table, if they
        were met before, others by decoding them. */
    method FindKey(input: Spans, start: nat, end: nat, hasEscape: bool) returns (ok: bool, key: Bytes, units: nat)
      requires BufferValid() && TableValid() && start <= end < input.Len()
      requires Closes(input.bytes[start..end + 1]) && (!hasEscape ==> AllPlain(input.bytes[start..end]))
      modifies `chars, `internAttempts, `internHits, `internDisabled, handler, table
      ensures BufferValid() && TableValid() && handler.log == old(handler.log)
      ensures var r := ReadString(input.bytes[start..end + 1]);
              && ok == Readable(r, cfg.chunk)
              && (ok ==> key == r.text && units == r.units)
      ensures ok && hasEscape ==> chars == key
    {
      hide TableValid, ReadString, Closes, Joined, Utf8.CharAt, Utf8.Utf16Units, Keys.Hash;
      chars := [];
      var candidate := if !hasEscape && !internDisabled && end - start <= Keys.MAX_KEY_BYTES
                       then input.Contiguous(start, end) else None;
      match candidate {
        case None =>
          ok, units := DecodeKey(input, start, end);
          key := chars;
        case Some(bytes) =>
          PlainKey(input.bytes, start, end);
          var hash := Keys.Hash(bytes);
          internAttempts := internAttempts + 1;
          var found := LookUpKey(bytes, hash);
          if found.Some? {
            internHits := internHits + 1;
            return true, found.value, Utf16Len(found.value);
          }
          ok, units := DecodeKey(input, start, end);
          key := chars;
          if ok {
            RememberKey(bytes, hash);
          }
      }
    }

    method LookUpKey(bytes: Bytes, hash: Keys.U32) returns (found: Option<Bytes>)
      requires TableValid() && hash == Keys.Hash(bytes)
      ensures found.None? ==> bytes !in table.Table()
      ensures found.Some? ==> found.value == bytes && Utf8.ValidUtf8(bytes) && |bytes| <= cfg.chunk
                              && Utf16Len(bytes) == Utf8.Utf16Units(bytes)
    {
      hide Keys.Hash, Utf8.ValidUtf8, Utf16Len;
      found := table.Lookup(bytes, hash);
      if found.Some? {
        Utf16LenIsUnits(bytes);
      }
    }

    /** Interns a key just decoded; gives up on interning if it has not paid off. */
    method RememberKey(bytes: Bytes, hash: Keys.U32)
      requires TableValid() && hash == Keys.Hash(bytes) && bytes !in table.Table()
      requires chars == bytes && BufferValid()
      modifies `internDisabled, table
      ensures TableValid()
    {
      hide Keys.Hash, Utf8.ValidUtf8;
      table.Put(bytes, hash, chars);
      if internHits == 0 && internAttempts >= KEY_INTERN_DISABLE_THRESHOLD {
        internDisabled := true;
      }
    }

    /** Delivers a key and moves past it, unless it repeats one and that is refused. */
    method ReportKey(key: Bytes, units: nat) returns (ok: bool)
      requires Valid() && Between()
      modifies `duplicateKeyStack, handler, locator
      ensures Valid() && Between()
      ensures var found := KeyFound(cfg, old(Abs()), key, units);
              ok == found.Some? && (ok ==> Abs() == found.value)
    {
      hide TableValid, DepthMirrors, BufferValid, Joined;
      if cfg.rejectDuplicates && duplicateKeyStack != [] {
        var last := |duplicateKeyStack| - 1;
        if key in duplicateKeyStack[last] {
          return false;
        }
        duplicateKeyStack := duplicateKeyStack[..last] + [duplicateKeyStack[last] + {key}];
      }
      locator.AddColumn(2 + units);
      ReportEvent(Event.Key(key, Pos(locator.line, locator.column)));
      ok := true;
    }

    /** A key, opening quote at `c`: one token, nothing of it consumed until its
        closing quote is there. */
    method ProcessKey(input: Spans, c: nat) returns (r: Progress, next: nat)
      requires Valid() && Between() && c < input.Len() && input.bytes[c] == QUOTE
      modifies `chars, `internAttempts, `internHits, `internDisabled, `duplicateKeyStack, handler, locator, table
      ensures Valid() && Between() && c <= next <= input.Len()
      ensures var step := KeyStep(cfg, old(Abs()), input.bytes[c..]);
              match r
              case Failed => step.Bad?
              case NeedData => step.Wait? && Abs() == old(Abs()) && next == c
              case Done => next > c && step == Machine.TokenDone(cfg, AfterKey(Abs()), next - c)
    {
      hide TableValid, DepthMirrors, BufferValid, Joined, Machine.TokenDone, KeyFound, ReadString, Closes, ScanKey;
      ghost var s := input.bytes[c..];
      next := c;
      var scan, hasEscape := ScanForKeyEnd(input, c);
      match scan
      case KeyNeed => return NeedData, next;
      case KeyBad => return Failed, next;
      case KeyEnd(end) =>
        ScanCloses(s, 1, cfg.limits.nameLength);
        assert s[1..end + 1] == input.bytes[c + 1..c + end + 1];
        var ok, key, units := FindKey(input, c + 1, c + end, hasEscape);
        if !ok {
          return Failed, next;
        }
        ok := ReportKey(key, units);
        if !ok {
          return Failed, next;
        }
        next := c + end + 1;
        r := Done;
    }

    // ---------- Whitespace ----------

    static lemma NoPieces(log: Log, s: Bytes, c: nat)
      requires c <= |s|
      ensures JoinWhitespace(log, s[c..c]) == log
    {
    }

    static lemma MorePieces(log: Log, s: Bytes, c: nat, q: nat, piece: Bytes)
      requires c <= q <= q + |piece| <= |s| && piece == s[q..q + |piece|] && piece != []
      ensures JoinWhitespace(log, s[c..q + |piece|]) == Join(JoinWhitespace(log, s[c..q]), Event.Whitespace(piece))
    {
      hide Join;
      Split(s, c, q, q + |piece|);
      JoinWhitespaceTwice(log, s[c..q], piece);
    }

    /** Reports a run of whitespace, in one piece for each piece of the ring it lies in. */
    method ReportWhitespace(input: Spans, c: nat, end: nat)
      requires BufferValid() && c <= end <= input.Len()
      modifies handler
      ensures BufferValid() && Joined(handler.log) == JoinWhitespace(old(Joined(handler.log)), input.bytes[c..end])
    {
      hide BufferValid, Joined, Join, JoinWhitespace;
      ghost var before := Joined(handler.log);
      var q := c;
      NoPieces(before, input.bytes, c);
      while q < end
        invariant c <= q <= end && BufferValid()
        invariant Joined(handler.log) == JoinWhitespace(before, input.bytes[c..q])
      {
        var piece := input.Slice(q, end - q);
        MorePieces(before, input.bytes, c, q, piece);
        ReportEvent(Event.Whitespace(piece));
        q := q + |piece|;
      }
    }

    /** Finds where a run of whitespace ends, and at which line and column; `cr` is
        whether an LF coming next would belong to a break already counted. */
    method ScanWhitespace(input: Spans, c: nat, ghost st: St) returns (next: nat, line: nat, column: nat, cr: bool)
      requires c < input.Len() && IsWhitespace(input.bytes[c])
      requires st.at == Pos(locator.line, locator.column) && st.afterCr == afterCr
      ensures c < next <= input.Len() && AllWhitespace(input.bytes[c..next])
      ensures var after := WhitespaceRuns.AfterWhitespace(cfg, st, input.bytes[c..next]);
              after.at == Pos(line, column) && after.afterCr == cr
    {
      line, column, cr := locator.line, locator.column, afterCr;
      next := c;
      assert WhitespaceRuns.AfterWhitespace(cfg, st, input.bytes[c..c]) == st && AllWhitespace(input.bytes[c..c]);
      hide WhitespaceRuns.AfterWhitespace, AllWhitespace;
      while next < input.Len() && IsWhitespace(input.bytes[next])
        invariant c <= next <= input.Len() && AllWhitespace(input.bytes[c..next])
        invariant var after := WhitespaceRuns.AfterWhitespace(cfg, st, input.bytes[c..next]);
                  after.at == Pos(line, column) && after.afterCr == cr
      {
        var b := input.bytes[next];
        WhitespaceNext(cfg, st, input.bytes, c, next);
        WhitespaceMoves(cfg, WhitespaceRuns.AfterWhitespace(cfg, st, input.bytes[c..next]), b);
        hide WhitespaceStep;
        if b == LF {
          if !cr {
            line := line + 1;
          }
          column := 1;
          cr := false;
        } else if b == CR {
          line := line + 1;
          column := 1;
          cr := true;
        } else {
          column := column + 1;
          cr := false;
        }
        next := next + 1;
      }
    }

    /** Takes the whitespace that has arrived. */
    method ProcessWhitespace(input: Spans, c: nat) returns (next: nat)
      requires Valid() && Between() && c < input.Len() && IsWhitespace(input.bytes[c])
      modifies `afterCr, handler, locator
      ensures Valid() && Between() && c < next <= input.Len()
      ensures Leads(cfg, old(Abs()), input.bytes[c..], Abs(), input.bytes[next..])
    {
      hide TableValid, DepthMirrors, BufferValid, Joined, JoinWhitespace, Run, Leads, AllWhitespace, WhitespaceRuns.AfterWhitespace;
      ghost var s, st := input.bytes, Abs();
      var line, column, cr;
      next, line, column, cr := ScanWhitespace(input, c, st);
      WhitespaceRuns.AfterWhitespaceKeeps(cfg, st, s[c..next]);
      Cut(s, c, next - c);
      WhitespaceRuns.RunWhitespace(cfg, st, s[c..next], s[next..]);
      hide Abs;
      MoveTo(line, column, cr);
      DeliverWhitespace(input, c, next);
    }

    method MoveTo(line: nat, column: nat, cr: bool)
      requires Valid() && Between()
      modifies `afterCr, locator
      ensures Valid() && Between() && Abs() == old(Abs()).(at := Pos(line, column), afterCr := cr)
    {
      hide TableValid, DepthMirrors, BufferValid, Joined;
      locator.line := line;
      locator.column := column;
      afterCr := cr;
    }

    /** Reports whitespace to a handler that wants it. */
    method DeliverWhitespace(input: Spans, c: nat, end: nat)
      requires Valid() && Between() && c <= end <= input.Len()
      modifies handler
      ensures Valid() && Between()
      ensures Abs() == if cfg.needsWhitespace then old(Abs()).(log := JoinWhitespace(old(Abs()).log, input.bytes[c..end])) else old(Abs())
    {
      hide TableValid, DepthMirrors, BufferValid, Joined, JoinWhitespace;
      if cfg.needsWhitespace {
        ReportWhitespace(input, c, end);
      }
    }

    // ---------- Tokens ----------

    /** Counts a token; over the limit, the document is refused. */
    method TokenDone() returns (ok: bool)
      modifies `seenAnyToken, `tokenCount
      ensures seenAnyToken
      ensures tokenCount == if cfg.limits.tokenCount.Some? then old(tokenCount) + 1 else old(tokenCount)
      ensures ok == !Exceeds(tokenCount, cfg.limits.tokenCount)
    {
      seenAnyToken := true;
      if cfg.limits.tokenCount.Some? {
        tokenCount := tokenCount + 1;
      }
      ok := !Exceeds(tokenCount, cfg.limits.tokenCount);
    }

    method ProcessComma() returns (ok: bool)
      requires Valid() && Between()
      modifies `seenAnyToken, `tokenCount, `afterComma, `state, locator
      ensures Valid() && Between()
      ensures var step := CommaStep(cfg, old(Abs()));
              ok == !step.Bad? && (ok ==> step == Go(Abs(), 1))
    {
      hide TableValid, DepthMirrors, BufferValid, Joined;
      if state != AfterValue || contextStack == [] {
        return false;
      }
      locator.AddColumn(1);
      ok := TokenDone();
      afterComma := true;
      state := if contextStack[|contextStack| - 1] == InObject then ExpectKey else ExpectValue;
    }

    method ProcessColon() returns (ok: bool)
      requires Valid() && Between()
      modifies `seenAnyToken, `tokenCount, `afterComma, `state, locator
      ensures Valid() && Between()
      ensures var step := ColonStep(cfg, old(Abs()));
              ok == !step.Bad? && (ok ==> step == Go(Abs(), 1))
    {
      hide TableValid, DepthMirrors, BufferValid, Joined;
      if state != ExpectColon {
        return false;
      }
      locator.AddColumn(1);
      ok := TokenDone();
      afterComma := false;
      state := ExpectValue;
    }

    lemma DepthIsStackSize()
      requires DepthMirrors()
      ensures |depthStack| == |contextStack|
    {
    }

    method PushContext(context: Context)
      requires DepthMirrors()
      modifies `contextStack, `depthStack
      ensures DepthMirrors() && contextStack == old(contextStack) + [context]
    {
      contextStack := contextStack + [context];
      depthStack := depthStack + [Nest(context)];
    }

    method PopContext()
      requires DepthMirrors() && contextStack != []
      modifies `contextStack, `depthStack
      ensures DepthMirrors() && contextStack == Pop(old(contextStack))
    {
      contextStack := contextStack[..|contextStack| - 1];
      depthStack := depthStack[..|depthStack| - 1];
    }

    /** Reports the start or the end of an object or an array. */
    method ReportContext(context: Context, start: bool)
      requires Valid() && Between()
      modifies handler, locator
      ensures Valid() && Between()
      ensures var moved := Advance(old(Abs()), 1);
              Abs() == Machine.Report(moved, if context == InObject then (if start then Event.StartObject(moved.at) else Event.EndObject(moved.at))
                                             else if start then Event.StartArray(moved.at) else Event.EndArray(moved.at))
    {
      hide TableValid, DepthMirrors, BufferValid, Joined, Join;
      locator.AddColumn(1);
      var at := Pos(locator.line, locator.column);
      ReportEvent(if context == InObject then (if start then Event.StartObject(at) else Event.EndObject(at))
                  else if start then Event.StartArray(at) else Event.EndArray(at));
    }

    method PushNames(context: Context)
      modifies `duplicateKeyStack
      ensures duplicateKeyStack == if context == InObject && cfg.rejectDuplicates then old(duplicateKeyStack) + [{}] else old(duplicateKeyStack)
    {
      if context == InObject && cfg.rejectDuplicates {
        duplicateKeyStack := duplicateKeyStack + [{}];
      }
    }

    method PopNames(context: Context)
      modifies `duplicateKeyStack
      ensures duplicateKeyStack == if context == InObject && cfg.rejectDuplicates then Pop(old(duplicateKeyStack)) else old(duplicateKeyStack)
    {
      if context == InObject && cfg.rejectDuplicates {
        duplicateKeyStack := Pop(duplicateKeyStack);
      }
    }

    method OpenContext(context: Context) returns (ok: bool)
      requires Valid() && Between()
      modifies `seenAnyToken, `tokenCount, `afterComma, `state, `contextStack, `depthStack, `duplicateKeyStack, handler, locator
      ensures Valid() && Between()
      ensures var step := OpenFound(cfg, old(Abs()), context);
              ok == !step.Bad? && (ok ==> step == Go(Abs(), 1))
    {
      hide TableValid, DepthMirrors, BufferValid, Pending, Joined, Join;
      ReportContext(context, true);
      PushContext(context);
      PushNames(context);
      ok := TokenDone();
      afterComma := false;
      state := if context == InObject then ExpectKey else ExpectValue;
    }

    method ProcessOpen(context: Context) returns (ok: bool)
      requires Valid() && Between()
      modifies `seenAnyToken, `tokenCount, `afterComma, `state, `contextStack, `depthStack, `duplicateKeyStack, handler, locator
      ensures Valid() && Between()
      ensures var step := OpenStep(cfg, old(Abs()), context);
              ok == !step.Bad? && (ok ==> step == Go(Abs(), 1))
    {
      hide TableValid, DepthMirrors, BufferValid, Joined, OpenFound;
      DepthIsStackSize();
      if state != ExpectValue || Exceeds(|depthStack| + 1, cfg.limits.nestingDepth) {
        return false;
      }
      ok := OpenContext(context);
    }

    method CloseContext(context: Context) returns (ok: bool)
      requires Valid() && Between() && contextStack != []
      modifies `seenAnyToken, `tokenCount, `afterComma, `state, `contextStack, `depthStack, `duplicateKeyStack, handler, locator
      ensures Valid() && Between()
      ensures var step := CloseFound(cfg, old(Abs()), context);
              ok == !step.Bad? && (ok ==> step == Go(Abs(), 1))
    {
      hide TableValid, DepthMirrors, BufferValid, Pending, Joined, Join, Pop;
      ReportContext(context, false);
      PopContext();
      PopNames(context);
      ok := TokenDone();
      afterComma := false;
      state := AfterValue;
    }

    method ProcessClose(context: Context) returns (ok: bool)
      requires Valid() && Between()
      modifies `seenAnyToken, `tokenCount, `afterComma, `state, `contextStack, `depthStack, `duplicateKeyStack, handler, locator
      ensures Valid() && Between()
      ensures var step := CloseStep(cfg, old(Abs()), context);
              ok == !step.Bad? && (ok ==> step == Go(Abs(), 1))
    {
      hide TableValid, DepthMirrors, BufferValid, Joined, CloseFound;
      if contextStack == [] || contextStack[|contextStack| - 1] != context {
        return false;
      }
      if state != (if context == InObject then ExpectKey else ExpectValue) && state != AfterValue {
        return false;
      }
      if afterComma {
        return false;
      }
      ok := CloseContext(context);
    }

    /** Takes an opening quote and enters the string mode. */
    method StartString() returns (ok: bool)
      requires Valid() && Between()
      modifies `seenAnyToken, `tokenCount, `afterComma, `inString, `stringBytes, `chars, handler, locator
      ensures Valid() && inString && chars == []
      ensures var step := StartStringStep(cfg, old(Abs()));
              ok == !step.Bad? && (ok ==> step == Go(Abs(), 1))
    {
      hide TableValid, DepthMirrors, Joined, GoodPieces, Join;
      locator.AddColumn(1);
      chars := [];
      ReportEvent(Event.StartString(Pos(locator.line, locator.column)));
      inString := true;
      stringBytes := 0;
      ok := TokenDone();
      afterComma := false;
    }

    method StartNumber(b: Byte) returns (ok: bool)
      requires Valid() && Between() && (b == MINUS || IsDigit(b))
      modifies `seenAnyToken, `tokenCount, `afterComma, number
      ensures Valid() && !inString
      ensures var step := StartNumberStep(cfg, old(Abs()), b);
              ok == !step.Bad? && (ok ==> step == Go(Abs(), 1))
    {
      hide TableValid, DepthMirrors, BufferValid, Joined;
      if state != ExpectValue {
        return false;
      }
      number.Begin(b);
      ok := TokenDone();
      afterComma := false;
    }

    /** Compares the bytes at `first` with those expected, one by one. */
    method BytesMatch(input: Spans, first: nat, expected: Bytes) returns (ok: bool)
      requires first + |expected| <= input.Len()
      ensures ok <==> input.bytes[first..first + |expected|] == expected
    {
      ghost var present := input.bytes[first..first + |expected|];
      for i := 0 to |expected|
        invariant forall j :: 0 <= j < i ==> present[j] == expected[j]
      {
        if input.bytes[first + i] != expected[i] {
          assert present[i] != expected[i];
          return false;
        }
      }
      ok := true;
    }

    method FinishLiteral(n: nat, value: Option<bool>) returns (ok: bool)
      requires Valid() && Between()
      modifies `seenAnyToken, `tokenCount, `afterComma, `state, handler, locator
      ensures Valid() && Between()
      ensures var step := LiteralFound(cfg, old(Abs()), n, value);
              ok == !step.Bad? && (ok ==> step == Go(Abs(), n))
    {
      hide TableValid, DepthMirrors, BufferValid, Joined, Join;
      locator.AddColumn(n);
      ok := TokenDone();
      if ok {
        afterComma := false;
        state := AfterValue;
        var at := Pos(locator.line, locator.column);
        ReportEvent(if value.Some? then Event.BooleanValue(value.value, at) else Event.NullValue(at));
      }
    }

    /** A literal, of which `rest` must come after the byte at `c`. A wrong byte is
        refused as soon as it is seen; missing ones are waited for. */
    method ProcessLiteral(input: Spans, c: nat, rest: Bytes, value: Option<bool>) returns (r: Progress, next: nat)
      requires Valid() && Between() && c < input.Len()
      modifies `seenAnyToken, `tokenCount, `afterComma, `state, handler, locator
      ensures Valid() && Between() && c <= next <= input.Len()
      ensures var step := LiteralStep(cfg, old(Abs()), input.bytes[c..], rest, value);
              match r
              case Failed => step.Bad?
              case NeedData => step.Wait? && Abs() == old(Abs()) && next == c
              case Done => step == Go(Abs(), next - c)
    {
      hide TableValid, DepthMirrors, BufferValid, Joined, LiteralFound;
      ghost var s := input.bytes[c..];
      next := c;
      if state != ExpectValue {
        return Failed, next;
      }
      var available := input.Len() - (c + 1);
      var present := Min(available, |rest|);
      var matches := BytesMatch(input, c + 1, rest[..present]);
      Inside(input.bytes, c, 1, 1 + present);
      if !matches {
        return Failed, next;
      }
      if available < |rest| {
        return NeedData, next;
      }
      next := c + 1 + |rest|;
      var ok := FinishLiteral(1 + |rest|, value);
      r := if ok then Done else Failed;
    }

    /** Counts a key; a colon is due after it. */
    method KeyTaken(ghost n: nat) returns (ok: bool)
      requires Valid() && Between()
      modifies `seenAnyToken, `tokenCount, `afterComma, `state
      ensures Valid() && Between()
      ensures var step := Machine.TokenDone(cfg, AfterKey(old(Abs())), n);
              ok == !step.Bad? && (ok ==> step == Go(Abs(), n))
    {
      hide TableValid, DepthMirrors, BufferValid, Joined;
      ok := TokenDone();
      if ok {
        afterComma := false;
        state := ExpectColon;
      }
    }

    /** A string: a key where one is due, otherwise the start of a value. */
    method ProcessQuote(input: Spans, c: nat) returns (r: Progress, next: nat)
      requires Valid() && Between() && c < input.Len() && input.bytes[c] == QUOTE
      modifies this, handler, locator, table
      ensures Valid() && number.stage == Numbers.Idle && c <= next <= input.Len()
      ensures var step := TokenStep(cfg, old(Abs()), input.bytes[c..]);
              match r
              case Failed => step.Bad?
              case NeedData => step.Wait? && Between() && Abs() == old(Abs()) && next == c
              case Done => step == Go(Abs(), next - c)
      ensures inString ==> chars == []
    {
      hide TableValid, DepthMirrors, BufferValid, Joined, KeyStep, StartStringStep;
      next := c;
      if state == ExpectColon || state == AfterValue {
        return Failed, next;
      }
      if state == ExpectKey {
        r, next := ProcessKey(input, c);
        if r.Done? {
          var ok := KeyTaken(next - c);
          r := if ok then Done else Failed;
        }
        return;
      }
      var ok := StartString();
      return if ok then Done else Failed, c + 1;
    }

    /** Takes the token whose first byte is at `c`, all of it or nothing. */
    method ProcessToken(input: Spans, c: nat) returns (r: Progress, next: nat)
      requires Valid() && Between() && c < input.Len()
      modifies this, handler, locator, table, number
      ensures Valid() && c <= next <= input.Len()
      ensures var step := TokenStep(cfg, old(Abs()), input.bytes[c..]);
              match r
              case Failed => step.Bad?
              case NeedData => step.Wait? && Between() && Abs() == old(Abs()) && next == c
              case Done => step == Go(Abs(), next - c)
      ensures inString ==> chars == []
    {
      hide TableValid, DepthMirrors, BufferValid, Abs, KeyStep, StartStringStep, CommaStep, ColonStep, OpenStep, CloseStep, LiteralStep, StartNumberStep;
      var b := input.bytes[c];
      var ok := false;
      next := c + 1;
      if b == QUOTE {
        r, next := ProcessQuote(input, c);
        return;
      } else if b == COMMA {
        ok := ProcessComma();
      } else if b == COLON {
        ok := ProcessColon();
      } else if b == LBRACE {
        ok := ProcessOpen(InObject);
      } else if b == RBRACE {
        ok := ProcessClose(InObject);
      } else if b == LBRACKET {
        ok := ProcessOpen(InArray);
      } else if b == RBRACKET {
        ok := ProcessClose(InArray);
      } else if b == 0x74 {
        r, next := ProcessLiteral(input, c, RUE, Some(true));
        return;
      } else if b == 0x66 {
        r, next := ProcessLiteral(input, c, ALSE, Some(false));
        return;
      } else if b == 0x6E {
        r, next := ProcessLiteral(input, c, ULL, None);
        return;
      } else if b == MINUS || IsDigit(b) {
        ok := StartNumber(b);
      }
      r := if ok then Done else Failed;
    }

    /** Clears the mark of a CR before a token. */
    method ClearCr()
      requires Valid() && Between()
      modifies `afterCr
      ensures Valid() && Between() && Abs() == old(Abs()).(afterCr := false)
    {
      hide TableValid, DepthMirrors, BufferValid, Joined;
      afterCr := false;
    }

    lemma PlainMode()
      requires Between()
      ensures Abs().mode.Plain?
    {
    }

    /** One token, when between tokens and not at whitespace. */
    method ReceiveToken(input: Spans, c: nat) returns (r: Progress, next: nat)
      requires Valid() && Between() && c < input.Len() && !IsWhitespace(input.bytes[c])
      modifies this, handler, locator, table, number
      ensures Valid() && c <= next <= input.Len()
      ensures if r.Failed? then Run(cfg, old(Abs()), input.bytes[c..]).Fail?
              else Leads(cfg, old(Abs()), input.bytes[c..], Abs(), input.bytes[next..])
      ensures r.Done? ==> c < next
      ensures r.NeedData? ==> next == c && Stuck(input.bytes, next)
      ensures inString ==> chars == []
    {
      hide TableValid, DepthMirrors, BufferValid, Abs, TokenStep;
      ghost var s, st := input.bytes, Abs();
      PlainMode();
      ClearCr();
      ghost var cleared := Abs();
      r, next := ProcessToken(input, c);
      TokenRun(cfg, st, s[c..]);
      hide Run, Leads, Unit;
      if r.Done? {
        TokenAdvances(cfg, cleared, s[c..]);
        From(s, c, next - c);
      }
    }

    /** Works through `input` for as long as the next unit is decided; `consumed` is
        how far that is. Machine and tokenizer then stand at the same place. */
    method Receive(input: Spans) returns (ok: bool, consumed: nat)
      requires Valid() && (inString ==> chars == [])
      modifies this, handler, locator, table, number
      ensures Valid() && consumed <= input.Len()
      ensures if ok then Leads(cfg, old(Abs()), input.bytes, Abs(), input.bytes[consumed..])
              else Run(cfg, old(Abs()), input.bytes).Fail?
      ensures ok ==> Stuck(input.bytes, consumed) && (inString ==> chars == [])
    {
      hide TableValid, DepthMirrors, BufferValid, Abs, Run, Leads, Unit;
      ghost var s, st := input.bytes, Abs();
      consumed := 0;
      assert s[0..] == s;
      LeadsNowhere(cfg, st, s);
      while consumed < input.Len()
        invariant consumed <= input.Len() && Valid() && (inString ==> chars == [])
        invariant Leads(cfg, st, s, Abs(), s[consumed..])
        decreases input.Len() - consumed, number.stage != Numbers.Idle
      {
        ghost var mid, at := Abs(), consumed;
        var r;
        if inString {
          r, consumed := ContinueString(input, consumed);
        } else if number.stage != Numbers.Idle {
          r, consumed := ContinueNumber(input, consumed);
        } else if IsWhitespace(input.bytes[consumed]) {
          consumed := ProcessWhitespace(input, consumed);
          r := Done;
        } else {
          r, consumed := ReceiveToken(input, consumed);
        }
        Onward(cfg, st, s, mid, s[at..], Abs(), s[consumed..], r.Failed?);
        if !r.Done? {
          return r.NeedData?, consumed;
        }
      }
      ok := true;
    }

    /** The input is over: a number in progress may end here, a string may not. */
    method EndOfInput() returns (ok: bool)
      requires Valid()
      modifies number, `state, handler, locator
      ensures Valid()
      ensures var finished := Finish(old(Abs()));
              ok == finished.Some? && (ok ==> Abs() == finished.value)
    {
      hide TableValid, DepthMirrors, BufferValid, Joined, Machine.EmitNumber;
      if inString {
        return false;
      }
      match number.stage
      case Idle => ok := true;
      case AfterMinus => ok := false;
      case FractionDot => ok := false;
      case ExponentMark => ok := false;
      case ExponentSign => ok := false;
      case _ =>
        EmitNumber();
        ok := true;
    }
  }

  lemma WhitespaceNext(cfg: Config, st: St, s: Bytes, c: nat, p: nat)
    requires c <= p < |s| && AllWhitespace(s[c..p]) && IsWhitespace(s[p])
    ensures AllWhitespace(s[c..p + 1])
    ensures WhitespaceRuns.AfterWhitespace(cfg, st, s[c..p + 1])
         == WhitespaceStep(cfg, WhitespaceRuns.AfterWhitespace(cfg, st, s[c..p]), s[p])
  {
    assert s[c..p + 1][..p - c] == s[c..p];
    assert s[c..p + 1] == s[c..p] + [s[p]];
  }

  lemma WhitespaceMoves(cfg: Config, st: St, b: Byte)
    ensures var after := WhitespaceStep(cfg, st, b);
            && after.afterCr == (b == CR)
            && after.at == if b == LF && st.afterCr then Pos(st.at.line, 1)
                           else if b == LF || b == CR then Pos(st.at.line + 1, 1)
                           else Pos(st.at.line, st.at.column + 1)
  {
    hide Join;
  }

  /** A token in a run. */
  lemma {:induction false} TokenRun(cfg: Config, st: St, s: Bytes)
    requires |s| > 0 && st.mode.Plain? && !IsWhitespace(s[0])
    ensures var cleared := st.(afterCr := false);
            match TokenStep(cfg, cleared, s)
            case Bad => Run(cfg, st, s).Fail?
            case Wait(waiting) => Leads(cfg, st, s, cleared, s) && Unit(cfg, cleared, s).Wait?
            case Go(next, n) => n <= |s| && Leads(cfg, st, s, next, s[n..])
  {
    hide TokenStep;
    var cleared := st.(afterCr := false);
    assert Unit(cfg, st, s) == TokenStep(cfg, cleared, s);
    assert Unit(cfg, cleared, s) == TokenStep(cfg, cleared, s);
    LeadsForgetting(cfg, st, s);
    if TokenStep(cfg, cleared, s).Go? {
      LeadsOne(cfg, st, s, TokenStep(cfg, cleared, s).st, TokenStep(cfg, cleared, s).n);
    }
  }

  /** Onward from a state that has been passed: to a later one, or to where the run fails. */
  lemma Onward(cfg: Config, a: St, s: Bytes, b: St, t: Bytes, c: St, u: Bytes, failed: bool)
    requires Leads(cfg, a, s, b, t) && if failed then Run(cfg, b, t).Fail? else Leads(cfg, b, t, c, u)
    ensures if failed then Run(cfg, a, s).Fail? else Leads(cfg, a, s, c, u)
  {
    if failed {
      LeadsToSameRun(cfg, a, s, b, t);
    } else {
      LeadsOn(cfg, a, s, b, t, c, u);
    }
  }

  lemma TokenAdvances(cfg: Config, st: St, s: Bytes)
    requires |s| > 0 && TokenStep(cfg, st, s).Go?
    ensures TokenStep(cfg, st, s).n > 0
  {
  }
}
