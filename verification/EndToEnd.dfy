// From a writer to a parser, each with a ring of its own, and from one document to
// the next.
module EndToEnd {
  import opened Base
  import opened Events
  import opened Machine
  import opened Layouts
  import opened WrittenTrees
  import opened RoundTrip
  import Rings
  import Writers
  import Backpressure
  import Parsers
  import Documents

  /** Writes data into a ring that is drained in between, then parses what came out
      of it: the handler is told what was written, exactly if the parser's settings
      allow it, and if its ring is large enough for the names or for their limit. */
  method WriteAndParse(w: Writers.Writer, ring: Rings.LoopBuf, d: Data, parser: Parsers.Parser, capacity: nat, head: nat)
    returns (r: Parsers.Outcome)
    requires ring.Valid() && ring.content == [] && ring.capacity >= 6 && Proper(d)
    requires w.Place() == Place(w.indent, Init0, 0) && Backpressure.TokensFitRing(w.Place(), Calls(d), ring.capacity)
    requires parser.TableValid() && parser.cfg.chunk >= Parsers.Tokenizers.MIN_DECODE_ROOM && capacity > 0 && head <= capacity
    modifies w, ring, parser, parser.handler, parser.table
    ensures parser.TableValid()
    ensures r.Fine? || r.Rejected? || r.RingTooSmall?
    ensures var parseable := Parseable(parser.cfg, d, |Unbounded(Place(w.indent, Init0, 0), Calls(d))|);
            (r.Fine? ==> parseable) && (r.Rejected? ==> !parseable)
    ensures r.Fine? ==> Erased(Joined(parser.handler.log)) == EventsOf(d)
    ensures r.Fine? ==> NamesShort(d, capacity)
    ensures capacity >= 12 && NamesShort(d, capacity) ==> !r.RingTooSmall?
    ensures var limit := parser.cfg.limits.nameLength;
            capacity >= 12 && limit.Some? && capacity >= limit.value + 4 ==> !r.RingTooSmall?
  {
    hide Calls, Unbounded, Proper, Parseable, NamesShort, Documents.Judge, Documents.KeysFit, Parsers.Parser.TableValid;
    ghost var place := w.Place();
    var drained := Backpressure.WriteAll(w, ring, Calls(d));
    var text := drained + ring.content;
    assert [] + Unbounded(place, Calls(d)) == Unbounded(place, Calls(d));
    WrittenIsReadBack(parser.cfg, w.indent, d);
    WrittenFitsRing(parser.cfg, w.indent, d, capacity);
    r := parser.Parse(text, capacity, head);
  }

  /** What a parse through a ring of this capacity came to, for this document alone. */
  ghost predicate Judged(cfg: Config, document: Bytes, capacity: nat, r: Parsers.Outcome, log: Log) {
    var fits := Documents.KeysFit(cfg, INITIAL, Documents.Body(document), capacity);
    match r
    case Fine => fits && Documents.Judge(cfg, document) == Some(Joined(log))
    case Rejected => Documents.Judge(cfg, document).None?
    case RingTooSmall => capacity < 12 || !fits
    case Closed => false
  }

  /** Parses documents one after another with one parser. The keys that earlier ones
      left in its table change nothing. */
  method ParseInTurn(parser: Parsers.Parser, documents: seq<Bytes>, capacity: nat, head: nat)
    returns (outcomes: seq<Parsers.Outcome>, logs: seq<Log>)
    requires parser.TableValid() && parser.cfg.chunk >= Parsers.Tokenizers.MIN_DECODE_ROOM && capacity > 0 && head <= capacity
    modifies parser, parser.handler, parser.table
    ensures parser.TableValid()
    ensures |outcomes| == |logs| == |documents|
    ensures forall i :: 0 <= i < |documents| ==> Judged(parser.cfg, documents[i], capacity, outcomes[i], logs[i])
  {
    hide Judged, Parsers.Parser.TableValid;
    outcomes, logs := [], [];
    for i := 0 to |documents|
      invariant parser.TableValid() && |outcomes| == |logs| == i
      invariant forall j :: 0 <= j < i ==> Judged(parser.cfg, documents[j], capacity, outcomes[j], logs[j])
    {
      var r := ParseOne(parser, documents[i], capacity, head);
      outcomes, logs := outcomes + [r], logs + [parser.handler.log];
    }
  }

  method ParseOne(parser: Parsers.Parser, document: Bytes, capacity: nat, head: nat) returns (r: Parsers.Outcome)
    requires parser.TableValid() && parser.cfg.chunk >= Parsers.Tokenizers.MIN_DECODE_ROOM && capacity > 0 && head <= capacity
    modifies parser, parser.handler, parser.table
    ensures parser.TableValid() && Judged(parser.cfg, document, capacity, r, parser.handler.log)
  {
    hide Documents.Judge, Documents.KeysFit, Parsers.Parser.TableValid, Joined;
    r := parser.Parse(document, capacity, head);
  }
}
