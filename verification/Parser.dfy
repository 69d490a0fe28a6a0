// The parser: a ring of bytes is fed to the tokenizer, call after call, and the
// document is judged when it is closed.
module Parsers {
  import opened Base
  import opened Events
  import opened Machine
  import opened Documents
  import opened StringRuns
  import opened Tokenizers
  import opened Rings
  import opened Invariants
  import opened Passages
  import opened Misfits
  import Keys
  import Positions
  import Prefixes
  import Histories

  /** How a call went. */
  datatype Outcome = Fine | Rejected | RingTooSmall | Closed

  class Parser {
    const cfg: Config
    const handler: Handler
    const table: Keys.KeySymbolTable
    var locator: Locator
    var checkedBom: bool
    var closed: bool
    var documentLength: nat
    var unconsumed: nat
    var underflow: bool
    var tokenizer: Tokenizer?
    // the document so far, and the end of it that is still in the ring
    ghost var doc: Bytes
    ghost var pending: Bytes

    ghost predicate TableValid()
      reads table
    {
      table.Valid() && table.hashOf == Keys.Hash && Interned(table.Table(), cfg.chunk)
    }

    /** Nothing has been handed to a tokenizer. */
    ghost predicate Unstarted()
      reads `tokenizer, `checkedBom, `locator, handler, locator
    {
      tokenizer == null && !checkedBom && handler.log == [] && locator.line == 1 && locator.column == 1
    }

    /** The tokenizer, on what is left in the ring, is where the machine gets to on the whole document. */
    ghost predicate RunningOn(rest: Bytes)
      reads `tokenizer, `checkedBom, `doc, `locator, handler, locator, table, tokenizer, if tokenizer == null then {} else {tokenizer.number}
    {
      && tokenizer != null && checkedBom && BomDecided(doc)
      && tokenizer.cfg == cfg && tokenizer.handler == handler && tokenizer.locator == locator && tokenizer.table == table
      && tokenizer.Valid()
      && (tokenizer.inString ==> tokenizer.chars == [])
      && Leads(cfg, INITIAL, Body(doc), tokenizer.Abs(), rest)
    }

    ghost predicate Counted()
      reads this
    {
      && cfg.chunk >= MIN_DECODE_ROOM
      && unconsumed == |pending| && (underflow <==> pending != [])
      && (cfg.limits.documentLength.Some? ==> documentLength == |doc|)
      && !Exceeds(|doc|, cfg.limits.documentLength)
    }

    ghost predicate Valid()
      reads this, handler, locator, table, tokenizer, if tokenizer == null then {} else {tokenizer.number}
    {
      && TableValid()
      && Counted()
      && if tokenizer == null then Unstarted() && pending == doc && CheckBom(doc).NeedMore? else RunningOn(pending) && tokenizer.Stuck(pending, 0)
    }

    /** Whether the last call left bytes in the ring. */
    predicate IsUnderflow()
      requires Valid()
      reads this, handler, locator, table, tokenizer, if tokenizer == null then {} else {tokenizer.number}
      ensures IsUnderflow() <==> pending != []
    {
      underflow
    }

    /** The objects a call changes, besides the ring. */
    function Footprint(): set<object?>
      reads this
    {
      if tokenizer == null then {this, handler, table, locator}
      else {this, handler, table, locator, tokenizer, tokenizer.number}
    }

    constructor (cfg: Config, handler: Handler)
      requires cfg.chunk >= MIN_DECODE_ROOM && handler.log == []
      ensures Valid() && this.cfg == cfg && this.handler == handler && doc == [] && pending == [] && !closed
      ensures fresh(Footprint() - {handler})
    {
      hide RunningOn, Tokenizer.Stuck, Keys.Hash;
      this.cfg, this.handler := cfg, handler;
      table := new Keys.KeySymbolTable(Keys.Hash);
      locator := new Locator();
      tokenizer, checkedBom, closed, documentLength, unconsumed, underflow := null, false, false, 0, 0, false;
      doc, pending := [], [];
    }

    /** Settles the byte order mark on the first call, then hands the tokenizer
        what is in `input`. */
    method Process(input: Spans) returns (ok: bool, consumed: nat)
      requires TableValid() && cfg.chunk >= MIN_DECODE_ROOM && input.bytes != []
      requires if tokenizer == null then
                 Unstarted() && input.bytes == doc
               else RunningOn(input.bytes)
      modifies `checkedBom, `tokenizer, handler, table, locator, tokenizer, if tokenizer == null then {} else {tokenizer.number}
      ensures tokenizer == old(tokenizer) || (fresh(tokenizer) && fresh(tokenizer.number))
      ensures consumed <= input.Len() && TableValid()
      ensures !ok ==> Hopeless(cfg, doc)
      ensures ok && tokenizer == null ==> consumed == 0 && Unstarted() && CheckBom(doc).NeedMore?
      ensures ok && tokenizer != null ==> RunningOn(input.bytes[consumed..]) && tokenizer.Stuck(input.bytes[consumed..], 0)
    {
      hide TableValid, RunningOn, Unstarted, CheckBom, Hopeless, Tokenizer.Stuck, Tokenizer.Abs;
      var rest := input;
      consumed := 0;
      if tokenizer == null {
        var bom := Begin(input);
        match bom {
          case NeedMore => return true, consumed;
          case Unsupported => return false, consumed;
          case Skip(n) =>
            consumed := n;
            rest := input.Skip(n);
        }
      }
      var used;
      ok, used := HandOver(rest);
      assert input.bytes[consumed..][used..] == input.bytes[consumed + used..];
      consumed := consumed + used;
    }

    /** Makes a tokenizer, once the first bytes tell that there is to be one. */
    method Begin(input: Spans) returns (bom: Bom)
      requires TableValid() && cfg.chunk >= MIN_DECODE_ROOM && Unstarted() && input.bytes == doc
      modifies `checkedBom, `tokenizer
      ensures TableValid() && bom == CheckBom(doc)
      ensures bom.NeedMore? ==> Unstarted() && tokenizer == null
      ensures bom.Unsupported? ==> Hopeless(cfg, doc) && tokenizer == null
      ensures bom.Skip? ==> tokenizer != null && fresh(tokenizer) && fresh(tokenizer.number) && RunningOn(doc[bom.n..])
    {
      hide Leads, CheckBom, Run, Tokenizer.BufferValid, Tokenizer.DepthMirrors, Keys.Hash;
      bom := CheckBom(input.bytes);
      match bom
      case NeedMore =>
      case Unsupported => UnsupportedStart(cfg, doc);
      case Skip(n) =>
        BodyIsRest(doc);
        LeadsNowhere(cfg, INITIAL, Body(doc));
        checkedBom := true;
        tokenizer := new Tokenizer(cfg, handler, locator, table);
    }

    /** Lets the tokenizer work on `rest`. */
    method HandOver(rest: Spans) returns (ok: bool, used: nat)
      requires TableValid() && RunningOn(rest.bytes)
      modifies handler, table, locator, tokenizer, if tokenizer == null then {} else {tokenizer.number}
      ensures used <= rest.Len() && TableValid()
      ensures if ok then RunningOn(rest.bytes[used..]) && tokenizer.Stuck(rest.bytes[used..], 0) else Hopeless(cfg, doc)
    {
      hide Leads, Waits, CheckBom, Run, Tokenizer.Abs, Tokenizer.BufferValid, Tokenizer.DepthMirrors, Keys.Hash;
      ghost var before := tokenizer.Abs();
      ok, used := tokenizer.Receive(rest);
      Onward(cfg, INITIAL, Body(doc), before, rest.bytes, tokenizer.Abs(), rest.bytes[used..], !ok);
      assert rest.bytes[used..][0..] == rest.bytes[used..];
    }

    /** Counts what has arrived since the last call. */
    method Arrive(available: nat, ghost arrived: Bytes) returns (ok: bool)
      requires Valid() && available == |pending| + |arrived|
      modifies `doc, `documentLength
      ensures doc == old(doc) + arrived
      ensures !ok ==> Hopeless(cfg, doc)
      ensures ok ==> !Exceeds(|doc|, cfg.limits.documentLength)
                     && (cfg.limits.documentLength.Some? ==> documentLength == |doc|)
                     && (tokenizer != null ==> RunningOn(pending + arrived))
    {
      hide Leads, Waits, CheckBom, Body, Tokenizer.Abs, Tokenizer.Valid, Tokenizer.Stuck;
      ghost var before := doc;
      doc := doc + arrived;
      if tokenizer != null {
        BodyGrows(before, arrived);
        CheckBomStable(before, arrived);
        LeadsWithMore(cfg, INITIAL, Body(before), tokenizer.Abs(), pending, arrived);
      }
      ok := true;
      if cfg.limits.documentLength.Some? {
        documentLength := documentLength + (available - unconsumed);
        ok := !Exceeds(documentLength, cfg.limits.documentLength);
      }
    }

    /** Processes what is in the ring and releases what was used of it. */
    method Absorb(buf: LoopBuf) returns (ok: bool, consumed: nat)
      requires TableValid() && cfg.chunk >= MIN_DECODE_ROOM && buf.Valid() && buf.content != []
      requires if tokenizer == null then Unstarted() && buf.content == doc else RunningOn(buf.content)
      modifies `checkedBom, `tokenizer, `pending, handler, table, locator, tokenizer, if tokenizer == null then {} else {tokenizer.number}, buf
      ensures tokenizer == old(tokenizer) || (fresh(tokenizer) && fresh(tokenizer.number))
      ensures buf.Valid() && TableValid() && pending == buf.content && |buf.content| + consumed == |old(buf.content)|
      ensures !ok ==> Hopeless(cfg, doc)
      ensures ok && tokenizer == null ==> Unstarted() && buf.content == doc && CheckBom(doc).NeedMore?
      ensures ok && tokenizer != null ==> RunningOn(pending) && tokenizer.Stuck(pending, 0)
    {
      hide TableValid, RunningOn, Unstarted, CheckBom, Hopeless, Tokenizer.Stuck;
      ok, consumed := Process(buf.Readable());
      buf.Advance(consumed);
      pending := buf.content;
    }

    /** Feeds what is in the ring. The ring held `pending` before; the caller has
        only added to it. */
    method Feed(buf: LoopBuf, checkRoom: bool) returns (r: Outcome)
      requires Valid() && buf.Valid() && pending <= buf.content
      modifies Footprint(), buf
      ensures doc == old(doc + buf.content[|pending|..])
      ensures locator == old(locator) && closed == old(closed) && buf.Valid()
      ensures tokenizer == old(tokenizer) || (fresh(tokenizer) && fresh(tokenizer.number))
      ensures TableValid()
      ensures !r.Closed? && (r.Rejected? ==> Hopeless(cfg, doc))
      ensures !r.Rejected? ==> Valid() && buf.content == pending
      ensures r.RingTooSmall? ==> checkRoom && |pending| == buf.capacity > 0
      ensures r.Fine? && checkRoom && buf.capacity > 0 ==> |pending| < buf.capacity
    {
      hide TableValid, RunningOn, Unstarted, CheckBom, Hopeless, Tokenizer.Stuck;
      var available := |buf.content|;
      ghost var arrived := buf.content[|pending|..];
      assert pending + arrived == buf.content;
      if available == 0 {
        assert doc + arrived == doc;
        return Fine;
      }
      var ok := Arrive(available, arrived);
      if !ok {
        return Rejected;
      }
      var consumed;
      ok, consumed := Absorb(buf);
      if !ok {
        return Rejected;
      }
      unconsumed := |buf.content|;
      underflow := unconsumed > 0;
      if checkRoom && consumed == 0 && |buf.content| == buf.capacity {
        return RingTooSmall;
      }
      r := Fine;
    }

    method Receive(buf: LoopBuf) returns (r: Outcome)
      requires Valid() && buf.Valid() && pending <= buf.content
      modifies Footprint(), buf
      ensures TableValid()
      ensures r.Closed? <==> old(closed)
      ensures closed == old(closed) && locator == old(locator) && buf.Valid()
      ensures tokenizer == old(tokenizer) || (fresh(tokenizer) && fresh(tokenizer.number))
      ensures !r.Closed? ==> doc == old(doc + buf.content[|pending|..])
      ensures r.Rejected? ==> Hopeless(cfg, doc)
      ensures r.Fine? || r.RingTooSmall? ==> Valid() && buf.content == pending
      ensures r.RingTooSmall? ==> |pending| == buf.capacity > 0
      ensures r.Fine? && buf.capacity > 0 ==> |pending| < buf.capacity
    {
      if closed {
        return Closed;
      }
      r := Feed(buf, true);
    }

    /** Signals the end of input. The document is accepted, with these events,
        exactly when all of it at once would be. */
    method Close(buf: LoopBuf) returns (r: Outcome)
      requires Valid() && buf.Valid() && pending <= buf.content
      modifies Footprint(), buf
      ensures TableValid()
      ensures r.Fine? || r.Rejected?
      ensures old(closed) ==> r.Fine? && handler.log == old(handler.log) && doc == old(doc)
      ensures !old(closed) ==>
                && closed
                && doc == old(doc + buf.content[|pending|..])
                && (r.Fine? <==> Judge(cfg, doc).Some?)
                && (r.Fine? ==> Joined(handler.log) == Judge(cfg, doc).value && GoodPieces(handler.log, cfg.chunk))
    {
      hide TableValid, RunningOn, CheckBom, Hopeless, Judge, GoodPieces, Tokenizer.Stuck, Tokenizer.Abs;
      if closed {
        return Fine;
      }
      closed := true;
      if tokenizer == null || buf.content != [] {
        r := Feed(buf, false);
        if r.Rejected? {
          assert doc + [] == doc;
          HopelessStays(cfg, doc, []);
          return;
        }
        if tokenizer == null {
          UndecidedIsNothing(cfg, doc);
          return Rejected;
        }
      } else {
        assert doc + buf.content[|pending|..] == doc;
      }
      r := Finalize(buf);
    }

    /** The last checks, once everything has been fed. */
    method Finalize(buf: LoopBuf) returns (r: Outcome)
      requires Valid() && tokenizer != null && buf.content == pending
      modifies handler, locator, tokenizer, tokenizer.number
      ensures TableValid()
      ensures r.Fine? || r.Rejected?
      ensures r.Fine? <==> Judge(cfg, doc).Some?
      ensures r.Fine? ==> Joined(handler.log) == Judge(cfg, doc).value && GoodPieces(handler.log, cfg.chunk)
    {
      hide Run, Leads, Waits, CheckBom, Judge, GoodPieces, Tokenizer.TableValid, Joined;
      LeadsToSameRun(cfg, INITIAL, Body(doc), tokenizer.Abs(), pending);
      if buf.content != [] {
        assert pending[0..] == pending;
        LeftOverIsRejected(cfg, doc, tokenizer.Abs(), pending);
        return Rejected;
      }
      JudgedWhereStopped(cfg, doc, tokenizer.Abs());
      var ok := tokenizer.EndOfInput();
      if !ok || !tokenizer.seenAnyToken || tokenizer.depthStack != [] {
        return Rejected;
      }
      r := Fine;
    }

    /** Makes ready for a new document, keeping the key table warm. The log is
        started afresh with it. */
    method Reset()
      requires TableValid() && cfg.chunk >= MIN_DECODE_ROOM
      modifies this, handler
      ensures TableValid() && table.Table() == old(table.Table())
      ensures Valid() && doc == [] && pending == [] && !closed && tokenizer == null && fresh(locator)
    {
      hide TableValid, RunningOn, Tokenizer.Stuck;
      handler.log := [];
      tokenizer := null;
      locator := new Locator();
      checkedBom, closed, documentLength, unconsumed, underflow := false, false, 0, 0, false;
      doc, pending := [], [];
    }

    /** Parses a source through a ring of its own, whatever the reads return and
        wherever the ring wraps. Only a ring that a key does not fit can be too small. */
    method Parse(source: Bytes, capacity: nat, head: nat) returns (r: Outcome)
      requires TableValid() && cfg.chunk >= MIN_DECODE_ROOM && capacity > 0 && head <= capacity
      modifies this, handler, table
      ensures TableValid()
      ensures r.Fine? ==> Judge(cfg, source).Some?
      ensures r.Fine? ==> Joined(handler.log) == Judge(cfg, source).value && GoodPieces(handler.log, cfg.chunk)
      ensures r.Rejected? ==> Judge(cfg, source).None?
      ensures r.RingTooSmall? ==> capacity < 12 || !KeysFit(cfg, INITIAL, Body(source), capacity)
      ensures r.Fine? ==> KeysFit(cfg, INITIAL, Body(source), capacity)
      ensures cfg.limits.nameLength.Some? && capacity >= cfg.limits.nameLength.value + 4 && capacity >= 12 ==> !r.RingTooSmall?
      ensures !r.Closed?
    {
      hide TableValid, RunningOn, Unstarted, CheckBom, Hopeless, Judge, GoodPieces, KeysFit, Tokenizer.Stuck, Tokenizer.Abs;
      Reset();
      var buf := new LoopBuf(capacity, head);
      var at := 0;
      ghost var misfit := Misfit(source, capacity);
      while at < |source|
        invariant at <= |source| && Valid() && buf.Valid() && buf.content == pending && doc == source[..at]
        invariant buf.capacity == capacity && |pending| < capacity && !closed
        invariant fresh(locator) && (tokenizer != null ==> fresh(tokenizer) && fresh(tokenizer.number))
        invariant fresh(buf) && misfit <= |pending| + (|source| - at)
      {
        var n :| 0 < n && n <= capacity - |buf.content| && n <= |source| - at;
        r := Offer(buf, source[at..at + n]);
        Split(source, 0, at, at + n);
        at := at + n;
        Cut(source, 0, at);
        if r.Rejected? {
          HopelessStays(cfg, doc, source[at..]);
          return;
        }
        if r.RingTooSmall? {
          RingNeverTooSmall(source[at..], capacity);
          if cfg.limits.nameLength.Some? && capacity >= cfg.limits.nameLength.value + 4 {
            LimitedKeysFit(cfg, INITIAL, Body(source), capacity);
          }
          return;
        }
        MisfitWaits(source[at..], capacity);
      }
      assert source[..at] == source;
      assert doc + buf.content[|pending|..] == doc;
      r := Close(buf);
    }

    /** How much of a document is left at the first key that does not fit, 0 if none is. */
    ghost function Misfit(document: Bytes, capacity: nat): (left: nat)
      ensures left <= |document| && (left < capacity ==> KeysFit(cfg, INITIAL, Body(document), capacity))
    {
      if KeysFit(cfg, INITIAL, Body(document), capacity) then 0 else LeftAtMisfit(cfg, INITIAL, Body(document), capacity)
    }

    /** Received through a ring of this capacity, a key that does not fit is not got past. */
    lemma MisfitWaits(more: Bytes, capacity: nat)
      requires Valid() && Misfit(doc + more, capacity) <= capacity + |more|
      ensures Misfit(doc + more, capacity) <= |pending| + |more|
    {
      hide KeysFit, Run, Leads, Waits, Tokenizer.Abs, Tokenizer.Stuck, LeftAtMisfit, CheckBom;
      if tokenizer != null && !KeysFit(cfg, INITIAL, Body(doc + more), capacity) {
        BodyGrows(doc, more);
        MisfitStays(cfg, INITIAL, Body(doc), tokenizer.Abs(), pending, more, capacity);
      }
    }

    /** Adds bytes to the ring and has them received. */
    method Offer(buf: LoopBuf, bytes: Bytes) returns (r: Outcome)
      requires Valid() && buf.Valid() && pending == buf.content && |pending| + |bytes| <= buf.capacity && !closed
      modifies Footprint(), buf
      ensures TableValid()
      ensures doc == old(doc) + bytes && buf.Valid() && !r.Closed? && closed == old(closed) && locator == old(locator)
      ensures tokenizer == old(tokenizer) || (fresh(tokenizer) && fresh(tokenizer.number))
      ensures r.Rejected? ==> Hopeless(cfg, doc)
      ensures r.Fine? || r.RingTooSmall? ==> Valid() && buf.content == pending
      ensures r.RingTooSmall? ==> |pending| == buf.capacity > 0
      ensures r.Fine? && buf.capacity > 0 ==> |pending| < buf.capacity
    {
      hide TableValid, RunningOn, Unstarted, CheckBom, Hopeless, Tokenizer.Stuck, Tokenizer.Abs;
      buf.Append(bytes);
      assert buf.content[|pending|..] == bytes;
      r := Receive(buf);
    }

    /** A ring with room for every key never fills up with what must wait. */
    lemma RingNeverTooSmall(more: Bytes, capacity: nat)
      requires Valid()
      ensures capacity >= 12 && KeysFit(cfg, INITIAL, Body(doc + more), capacity) ==> |pending| != capacity
    {
      hide KeysFit, Run, Leads, Waits;
      if tokenizer != null && |pending| == capacity >= 12 && KeysFit(cfg, INITIAL, Body(doc + more), capacity) {
        BodyGrows(doc, more);
        assert pending[0..] == pending;
        LeadsToSameRun(cfg, INITIAL, Body(doc), tokenizer.Abs(), pending);
        NoKeyFillsRing(cfg, Body(doc), tokenizer.Abs(), pending, more, capacity);
      }
    }

    /** Between calls, whatever has been received: the invariant of reachable states
        holds of the tokenizer's, with the part of the document it has taken, and its
        two stacks agree. */
    lemma StateIsCoherent()
      requires Valid() && tokenizer != null
      ensures |pending| <= |Body(doc)|
      ensures Invariant(cfg, tokenizer.Abs(), Body(doc)[..|Body(doc)| - |pending|])
      ensures |tokenizer.depthStack| == |tokenizer.contextStack|
    {
      hide Leads, Invariant, Tokenizer.Abs, CheckBom, Body, Run;
      var s := Body(doc);
      Initially(cfg);
      LeadsKeeps(cfg, INITIAL, s, tokenizer.Abs(), pending, []);
      assert [] + s[..|s| - |pending|] == s[..|s| - |pending|];
    }

    /** Between tokens, whatever has been received and whatever is to come: there is a
        front of a document, its text the bytes taken so far, of which the handler has
        been told all there is to tell, and at whose end the locator stands. */
    lemma ToldIsTheText() returns (p: Prefixes.Prefix)
      requires Valid() && tokenizer != null && tokenizer.Between()
      ensures |pending| <= |Body(doc)| && Prefixes.PrefixFits(cfg, p)
      ensures var a := Prefixes.AccountOf(cfg.needsWhitespace, p);
              && a.text == Body(doc)[..|Body(doc)| - |pending|]
              && Joined(handler.log) == a.log
              && Pos(locator.line, locator.column) == Positions.PosOf(a.text)
    {
      hide Leads, CheckBom, Body, Run, Prefixes.AccountOf, Prefixes.PrefixFits, Positions.PosOf;
      p := Histories.ToldBetween(cfg, Body(doc), tokenizer.Abs(), pending);
    }
  }
}
