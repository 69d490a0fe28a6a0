// Whole documents: the byte order mark, the verdict, and what a ring must hold.
module Documents {
  import opened Base
  import opened Events
  import opened Machine
  import opened StringRuns
  import Chunks
  import Utf8

  /** What the first bytes say of a byte order mark. */
  datatype Bom = NeedMore | Skip(n: nat) | Unsupported

  /** Only a UTF-8 mark is skipped; those of other encodings are unsupported. */
  function CheckBom(s: Bytes): (bom: Bom)
    ensures bom.Skip? ==> bom.n <= |s| && s != []
    ensures bom.NeedMore? ==> |s| < 4
  {
    if s == [] then NeedMore
    else if s[0] == 0xEF then
      if |s| >= 3 then (if s[1] == 0xBB && s[2] == 0xBF then Skip(3) else Skip(0))
      else if |s| == 1 || s[1] == 0xBB then NeedMore
      else Skip(0)
    else if s[0] == 0xFE then
      if |s| < 2 then NeedMore else if s[1] == 0xFF then Unsupported else Skip(0)
    else if s[0] == 0xFF then
      if |s| < 2 then NeedMore
      else if s[1] == 0xFE then (if |s| < 4 then NeedMore else Unsupported)
      else Skip(0)
    else if s[0] == 0x00 then
      if |s| < 2 then NeedMore
      else if s[1] == 0x00 then
        if |s| < 4 then NeedMore
        else if s[2] == 0xFE && s[3] == 0xFF then Unsupported
        else Skip(0)
      else Skip(0)
    else Skip(0)
  }

  const BOM: Bytes := [0xEF, 0xBB, 0xBF]

  /** The document without its byte order mark. */
  function Body(doc: Bytes): Bytes {
    if BOM <= doc then doc[3..] else doc
  }

  predicate BomDecided(doc: Bytes) {
    CheckBom(doc).Skip?
  }

  lemma CheckBomStable(doc: Bytes, more: Bytes)
    requires !CheckBom(doc).NeedMore?
    ensures CheckBom(doc + more) == CheckBom(doc)
  {
  }

  lemma BodyIsRest(doc: Bytes)
    requires BomDecided(doc)
    ensures Body(doc) == doc[CheckBom(doc).n..]
  {
    if CheckBom(doc).n == 3 {
      assert BOM <= doc;
    }
  }

  lemma BodyGrows(doc: Bytes, more: Bytes)
    requires BomDecided(doc)
    ensures Body(doc + more) == Body(doc) + more
  {
    CheckBomStable(doc, more);
    BodyIsRest(doc);
    BodyIsRest(doc + more);
    Within(doc, more, CheckBom(doc).n);
  }

  /** What the parser says of a whole document: nothing if it is rejected, otherwise its events. */
  function Judge(cfg: Config, doc: Bytes): Option<Log> {
    if Exceeds(|doc|, cfg.limits.documentLength) then None else Verdict(cfg, Body(doc))
  }

  // ---------- The mark ----------

  /** The mark is U+FEFF, which UTF-8 encodes in three bytes. */
  lemma MarkIsEncoded()
    ensures BOM == Utf8.Encode(0xFEFF) == [0xEF, 0xBB, 0xBF]
  {
    Utf8.EncodeTable(0xFEFF);
  }

  /** The first bytes settle on three to skip exactly if they are the mark, and on an
      unsupported encoding exactly if they are U+FEFF in UTF-16 or UTF-32. */
  lemma MarksAreFound(s: Bytes)
    ensures CheckBom(s) == Skip(3) <==> Utf8.Encode(0xFEFF) <= s
    ensures CheckBom(s).Unsupported?
       <==> [0xFE, 0xFF] <= s || ([0xFF, 0xFE] <= s && |s| >= 4) || [0x00, 0x00, 0xFE, 0xFF] <= s
    ensures CheckBom(s).Skip? ==> CheckBom(s).n == 0 || CheckBom(s).n == 3
    ensures CheckBom(s).NeedMore? ==> s < Utf8.Encode(0xFEFF) || s == [0xFE] || s == [0xFF] || s == [0x00]
                                      || (2 <= |s| < 4 && ([0xFF, 0xFE] <= s || [0x00, 0x00] <= s))
  {
    MarkIsEncoded();
    hide Utf8.Encode;
  }

  /** One mark is skipped, and what follows it is judged as it would be without, but
      for the three bytes that count towards the limit. */
  lemma MarkIsSkipped(cfg: Config, text: Bytes)
    ensures Judge(cfg, Utf8.Encode(0xFEFF) + text)
         == if Exceeds(3 + |text|, cfg.limits.documentLength) then None else Verdict(cfg, text)
    ensures !(Utf8.Encode(0xFEFF) <= text) ==>
              Judge(cfg, text) == if Exceeds(|text|, cfg.limits.documentLength) then None else Verdict(cfg, text)
  {
    hide Verdict, Utf8.Encode;
    MarkIsEncoded();
    var doc := Utf8.Encode(0xFEFF) + text;
    assert doc[..3] == BOM && doc[3..] == text;
  }

  /** Whatever follows, the document is rejected. */
  predicate Hopeless(cfg: Config, doc: Bytes) {
    || Exceeds(|doc|, cfg.limits.documentLength)
    || (!CheckBom(doc).NeedMore? && Run(cfg, INITIAL, Body(doc)).Fail?)
  }

  lemma HopelessStays(cfg: Config, doc: Bytes, more: Bytes)
    requires Hopeless(cfg, doc)
    ensures Hopeless(cfg, doc + more) && Judge(cfg, doc + more).None?
  {
    hide Run, BOM;
    if !Exceeds(|doc|, cfg.limits.documentLength) {
      CheckBomStable(doc, more);
      if BomDecided(doc) {
        BodyGrows(doc, more);
        Chunks.RunInPieces(cfg, INITIAL, Body(doc), more);
      } else {
        UnsupportedStart(cfg, doc + more);
      }
    }
  }

  /** A document with another encoding's mark starts badly anyway. */
  lemma UnsupportedStart(cfg: Config, doc: Bytes)
    requires CheckBom(doc).Unsupported?
    ensures Run(cfg, INITIAL, Body(doc)).Fail?
  {
    assert !(BOM <= doc);
  }

  /** Nor is the start of a mark a document. */
  lemma UndecidedIsNothing(cfg: Config, doc: Bytes)
    requires CheckBom(doc).NeedMore?
    ensures Judge(cfg, doc).None?
  {
    assert !(BOM <= doc);
  }

  // ---------- Room for keys ----------

  /** A key is due at the front of `s`. */
  predicate AtKey(st: St, s: Bytes) {
    s != [] && st.mode.Plain? && st.state == ExpectKey && s[0] == QUOTE
  }

  /** Each key of the run is seen to end, or to be bad, within `capacity` bytes from
      its opening quote, unless the input ends before that. */
  predicate KeysFit(cfg: Config, st: St, s: Bytes, capacity: nat)
    decreases |s|, st.mode.InNumber?
  {
    if s == [] then true
    else if AtKey(st, s) && |s| >= capacity && ScanKey(s[..capacity], 1, cfg.limits.nameLength).KeyNeed? then false
    else
      match Unit(cfg, st, s)
      case Go(next, n) => KeysFit(cfg, next, s[n..], capacity)
      case _ => true
  }

  /** How much is left where the first key starts that does not fit. */
  function LeftAtMisfit(cfg: Config, st: St, s: Bytes, capacity: nat): (left: nat)
    requires !KeysFit(cfg, st, s, capacity)
    ensures capacity <= left <= |s|
    decreases |s|, st.mode.InNumber?
  {
    if AtKey(st, s) && |s| >= capacity && ScanKey(s[..capacity], 1, cfg.limits.nameLength).KeyNeed? then |s|
    else LeftAtMisfit(cfg, Unit(cfg, st, s).st, s[Unit(cfg, st, s).n..], capacity)
  }

  /** With a limit on names, a few bytes more decide on any key. */
  lemma {:induction false} LimitDecides(s: Bytes, i: nat, limit: nat)
    requires 1 <= i <= limit + 3 && |s| >= limit + 4
    ensures !ScanKey(s, i, Some(limit)).KeyNeed?
    decreases |s| - i
  {
    if i <= limit + 1 && s[i] != QUOTE {
      LimitDecides(s, if s[i] == BACKSLASH then i + 2 else i + 1, limit);
    }
  }

  /** So a ring that is larger than the limit on names by four bytes fits every key,
      or shows it to be too long. */
  lemma {:induction false} LimitedKeysFit(cfg: Config, st: St, s: Bytes, capacity: nat)
    requires cfg.limits.nameLength.Some? && capacity >= cfg.limits.nameLength.value + 4
    ensures KeysFit(cfg, st, s, capacity)
    decreases |s|, st.mode.InNumber?
  {
    hide Unit, ScanKey;
    if s != [] {
      if |s| >= capacity {
        LimitDecides(s[..capacity], 1, cfg.limits.nameLength.value);
      }
      match Unit(cfg, st, s)
      case Go(next, n) => LimitedKeysFit(cfg, next, s[n..], capacity);
      case _ =>
    }
  }

  /** Keys that fit in the whole fit where a run over the front of it stops. */
  lemma {:induction false} KeysFitWhereStopped(cfg: Config, st: St, s: Bytes, more: Bytes, capacity: nat)
    requires KeysFit(cfg, st, s + more, capacity)
    ensures var r := Run(cfg, st, s);
            r.Stop? ==> KeysFit(cfg, r.st, r.rest + more, capacity)
    decreases |s|, st.mode.InNumber?
  {
    if s == [] {
      assert s + more == more && [] + more == more;
    } else {
      hide Unit, ScanKey;
      Chunks.UnitStable(cfg, st, s, more);
      match Unit(cfg, st, s)
      case Wait(waiting) => WaitingKeepsKeys(cfg, st, s, more);
      case Bad =>
      case Go(next, n) =>
        assert (s + more)[n..] == s[n..] + more;
        KeysFitWhereStopped(cfg, next, s[n..], more, capacity);
    }
  }

  lemma WaitingKeepsKeys(cfg: Config, st: St, s: Bytes, more: Bytes)
    requires |s| > 0 && Unit(cfg, st, s).Wait?
    ensures var waiting := Unit(cfg, st, s).st;
            && AtKey(waiting, s + more) == AtKey(st, s + more)
            && Unit(cfg, waiting, s + more) == Unit(cfg, st, s + more)
  {
    Chunks.UnitStable(cfg, st, s, more);
  }

  /** A full ring that cannot be worked on holds a key too long for it. */
  lemma FullRingHoldsKey(cfg: Config, st: St, s: Bytes)
    requires |s| >= 12 && Waits(cfg, st, s)
    ensures AtKey(st, s) && ScanKey(s, 1, cfg.limits.nameLength).KeyNeed?
  {
    if !AtKey(st, s) {
      Chunks.WaitIsShort(cfg, st, s);
    }
  }

  /** Where keys fit, no ring of that size fills up with one. */
  lemma NoKeyFillsRing(cfg: Config, doc: Bytes, st: St, pending: Bytes, more: Bytes, capacity: nat)
    requires KeysFit(cfg, INITIAL, doc + more, capacity)
    requires Run(cfg, INITIAL, doc) == Run(cfg, st, pending)
    requires |pending| == capacity >= 12
    ensures !Waits(cfg, st, pending)
  {
    assert (pending + more)[..capacity] == pending;
    if Waits(cfg, st, pending) {
      FullRingHoldsKey(cfg, st, pending);
      WaitingKeepsKeys(cfg, st, pending, more);
      KeysFitWhereStopped(cfg, INITIAL, doc, more, capacity);
    }
  }

  // ---------- The end of the document ----------

  /** Bytes that cannot be worked on at the end are an incomplete token. */
  lemma LeftOverIsRejected(cfg: Config, doc: Bytes, st: St, rest: Bytes)
    requires Run(cfg, INITIAL, Body(doc)) == Run(cfg, st, rest) && rest != [] && Waits(cfg, st, rest)
    ensures Judge(cfg, doc).None?
  {
  }

  lemma JudgedWhereStopped(cfg: Config, doc: Bytes, st: St)
    requires Run(cfg, INITIAL, Body(doc)) == Run(cfg, st, [])
    requires !Exceeds(|doc|, cfg.limits.documentLength)
    ensures Judge(cfg, doc)
         == if Finish(st).None? || !st.seen || st.stack != [] then None else Some(Finish(st).value.log)
  {
  }
}
