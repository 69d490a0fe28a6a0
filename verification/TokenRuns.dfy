// Runs of the machine over one token, in terms of what has been read, told and
// counted so far.
module TokenRuns {
  import opened Base
  import opened Events
  import opened Machine
  import opened Positions
  import opened StringGrammar
  import opened Grammar
  import KeyRuns
  import Numbers
  import NumberLaws
  import Scanning
  import opened Documents
  import Chunks

  /** The part of the machine's state that the account does not give. */
  datatype Shape = Shape(stack: seq<Context>, state: State, afterComma: bool, dups: seq<set<Bytes>>)

  function At(cfg: Config, shape: Shape, a: Account): St {
    St(shape.stack, shape.state, a.tokens > 0, shape.afterComma, EndsInCr(a.text),
       if cfg.limits.tokenCount.Some? then a.tokens else 0, shape.dups, Plain, a.log, PosOf(a.text))
  }

  /** The state once all of `s` has been given and the input has ended. */
  function End(cfg: Config, st: St, s: Bytes): Option<St> {
    match Run(cfg, st, s)
    case Fail => None
    case Stop(reached, rest) => if rest != [] then None else Finish(reached)
  }

  predicate TokensFit(cfg: Config, a: Account) {
    !Exceeds(a.tokens, cfg.limits.tokenCount)
  }

  lemma EndGoes(cfg: Config, st: St, s: Bytes, next: St, n: nat)
    requires |s| > 0 && Unit(cfg, st, s) == Go(next, n)
    ensures n <= |s| && End(cfg, st, s) == End(cfg, next, s[n..])
  {
  }

  /** Where no key is due, room is a matter of what comes after. */
  lemma RoomGoes(cfg: Config, st: St, s: Bytes, next: St, n: nat, capacity: nat)
    requires s != [] && Unit(cfg, st, s) == Go(next, n) && !AtKey(st, s)
    ensures KeysFit(cfg, st, s, capacity) <==> KeysFit(cfg, next, s[n..], capacity)
  {
    hide Unit;
  }

  lemma RoomFails(cfg: Config, st: St, s: Bytes, capacity: nat)
    requires s != [] && !Unit(cfg, st, s).Go? && !AtKey(st, s)
    ensures KeysFit(cfg, st, s, capacity)
  {
    hide Unit;
  }

  lemma EndFails(cfg: Config, st: St, s: Bytes)
    requires |s| > 0 && !Unit(cfg, st, s).Go?
    ensures End(cfg, st, s).None?
  {
  }

  /** If a key is due at the front of `s`, its end is in sight within `capacity` bytes. */
  predicate KeySeen(cfg: Config, st: St, s: Bytes, capacity: nat) {
    AtKey(st, s) && |s| >= capacity ==> !ScanKey(s[..capacity], 1, cfg.limits.nameLength).KeyNeed?
  }

  /** A unit of `bytes` ends in state `next`, or is refused. */
  lemma EndAfter(cfg: Config, st: St, bytes: Bytes, rest: Bytes, next: St, fits: bool, capacity: nat)
    requires bytes != []
    requires Unit(cfg, st, bytes + rest) == if fits then Go(next, |bytes|) else Machine.Bad
    ensures End(cfg, st, bytes + rest) == if fits then End(cfg, next, rest) else None
    ensures KeySeen(cfg, st, bytes + rest, capacity) ==>
              (KeysFit(cfg, st, bytes + rest, capacity) <==> (fits ==> KeysFit(cfg, next, rest, capacity)))
  {
    hide Unit, Run;
    assert (bytes + rest)[|bytes|..] == rest;
    if fits {
      EndGoes(cfg, st, bytes + rest, next, |bytes|);
    } else {
      EndFails(cfg, st, bytes + rest);
    }
  }

  // ---------- Single bytes ----------

  lemma SpaceRun(cfg: Config, shape: Shape, a: Account, b: Byte, rest: Bytes, capacity: nat)
    requires IsWhitespace(b)
    ensures End(cfg, At(cfg, shape, a), [b] + rest) == End(cfg, At(cfg, shape, Spaced(cfg.needsWhitespace, a, [b])), rest)
    ensures KeysFit(cfg, At(cfg, shape, a), [b] + rest, capacity)
       <==> KeysFit(cfg, At(cfg, shape, Spaced(cfg.needsWhitespace, a, [b])), rest, capacity)
  {
    hide Run;
    assert (a.text + [b])[..|a.text|] == a.text;
    assert Scanning.CountUnits([b][1..]) == 0;
    var next := WhitespaceStep(cfg, At(cfg, shape, a), b);
    assert next == At(cfg, shape, Spaced(cfg.needsWhitespace, a, [b]));
    EndAfter(cfg, At(cfg, shape, a), [b], rest, next, true, capacity);
  }

  lemma OpenRun(cfg: Config, shape: Shape, a: Account, context: Context, rest: Bytes, capacity: nat)
    requires shape.state == ExpectValue
    ensures var next := Shape(shape.stack + [context], if context.InObject? then ExpectKey else ExpectValue, false,
                              if context.InObject? && cfg.rejectDuplicates then shape.dups + [{}] else shape.dups);
            var b: Byte := if context.InObject? then LBRACE else LBRACKET;
            var fits := DepthFits(cfg, |shape.stack| + 1) && TokensFit(cfg, Opened(a, context));
            && End(cfg, At(cfg, shape, a), [b] + rest)
               == (if fits then End(cfg, At(cfg, next, Opened(a, context)), rest) else None)
            && (KeysFit(cfg, At(cfg, shape, a), [b] + rest, capacity)
                <==> (fits ==> KeysFit(cfg, At(cfg, next, Opened(a, context)), rest, capacity)))
  {
    hide Run, PosOf;
    var b: Byte := if context.InObject? then LBRACE else LBRACKET;
    PosAfterByte(a.text, b);
    var next := Shape(shape.stack + [context], if context.InObject? then ExpectKey else ExpectValue, false,
                      if context.InObject? && cfg.rejectDuplicates then shape.dups + [{}] else shape.dups);
    EndAfter(cfg, At(cfg, shape, a), [b], rest, At(cfg, next, Opened(a, context)),
             DepthFits(cfg, |shape.stack| + 1) && TokensFit(cfg, Opened(a, context)), capacity);
  }

  lemma CloseRun(cfg: Config, shape: Shape, a: Account, context: Context, rest: Bytes, capacity: nat)
    requires shape.stack != [] && Top(shape.stack) == Some(context) && !shape.afterComma
    requires shape.state == AfterValue || shape.state == (if context.InObject? then ExpectKey else ExpectValue)
    ensures var next := Shape(Pop(shape.stack), AfterValue, false,
                              if context.InObject? && cfg.rejectDuplicates then Pop(shape.dups) else shape.dups);
            var b: Byte := if context.InObject? then RBRACE else RBRACKET;
            && End(cfg, At(cfg, shape, a), [b] + rest)
               == (if TokensFit(cfg, Closed(a, context)) then End(cfg, At(cfg, next, Closed(a, context)), rest) else None)
            && (KeysFit(cfg, At(cfg, shape, a), [b] + rest, capacity)
                <==> (TokensFit(cfg, Closed(a, context)) ==> KeysFit(cfg, At(cfg, next, Closed(a, context)), rest, capacity)))
  {
    hide Run, PosOf;
    var b: Byte := if context.InObject? then RBRACE else RBRACKET;
    PosAfterByte(a.text, b);
    var next := Shape(Pop(shape.stack), AfterValue, false,
                      if context.InObject? && cfg.rejectDuplicates then Pop(shape.dups) else shape.dups);
    EndAfter(cfg, At(cfg, shape, a), [b], rest, At(cfg, next, Closed(a, context)), TokensFit(cfg, Closed(a, context)), capacity);
  }

  lemma CommaRun(cfg: Config, shape: Shape, a: Account, rest: Bytes, capacity: nat)
    requires shape.state == AfterValue && shape.stack != []
    ensures var next := shape.(state := if Top(shape.stack) == Some(InObject) then ExpectKey else ExpectValue, afterComma := true);
            var after := Punctuated(a, COMMA);
            && End(cfg, At(cfg, shape, a), [COMMA] + rest)
               == (if TokensFit(cfg, after) then End(cfg, At(cfg, next, after), rest) else None)
            && (KeysFit(cfg, At(cfg, shape, a), [COMMA] + rest, capacity)
                <==> (TokensFit(cfg, after) ==> KeysFit(cfg, At(cfg, next, after), rest, capacity)))
  {
    hide Run, PosOf;
    PosAfterByte(a.text, COMMA);
    var next := shape.(state := if Top(shape.stack) == Some(InObject) then ExpectKey else ExpectValue, afterComma := true);
    var after := Punctuated(a, COMMA);
    EndAfter(cfg, At(cfg, shape, a), [COMMA], rest, At(cfg, next, after), TokensFit(cfg, after), capacity);
  }

  lemma ColonRun(cfg: Config, shape: Shape, a: Account, rest: Bytes, capacity: nat)
    requires shape.state == ExpectColon
    ensures var next, after := shape.(state := ExpectValue, afterComma := false), Punctuated(a, COLON);
            && End(cfg, At(cfg, shape, a), [COLON] + rest)
               == (if TokensFit(cfg, after) then End(cfg, At(cfg, next, after), rest) else None)
            && (KeysFit(cfg, At(cfg, shape, a), [COLON] + rest, capacity)
                <==> (TokensFit(cfg, after) ==> KeysFit(cfg, At(cfg, next, after), rest, capacity)))
  {
    hide Run, PosOf;
    PosAfterByte(a.text, COLON);
    var next, after := shape.(state := ExpectValue, afterComma := false), Punctuated(a, COLON);
    EndAfter(cfg, At(cfg, shape, a), [COLON], rest, At(cfg, next, after), TokensFit(cfg, after), capacity);
  }

  // ---------- Literals ----------

  lemma LiteralRun(cfg: Config, shape: Shape, a: Account, w: Word, rest: Bytes, capacity: nat)
    requires shape.state == ExpectValue
    ensures var next, after := shape.(state := AfterValue, afterComma := false), AfterWord(a, w);
            && End(cfg, At(cfg, shape, a), WordText(w) + rest)
               == (if TokensFit(cfg, after) then End(cfg, At(cfg, next, after), rest) else None)
            && (KeysFit(cfg, At(cfg, shape, a), WordText(w) + rest, capacity)
                <==> (TokensFit(cfg, after) ==> KeysFit(cfg, At(cfg, next, after), rest, capacity)))
  {
    hide Run, PosOf;
    var after := AfterWord(a, w);
    PosAfterAscii(a.text, WordText(w));
    LiteralUnit(cfg, At(cfg, shape, a), w, rest);
    var next := shape.(state := AfterValue, afterComma := false);
    hide Unit, EndsInCr;
    EndAfter(cfg, At(cfg, shape, a), WordText(w), rest, At(cfg, next, after), TokensFit(cfg, after), capacity);
  }

  lemma LiteralUnit(cfg: Config, st: St, w: Word, rest: Bytes)
    requires st.mode.Plain? && st.state == ExpectValue
    ensures Unit(cfg, st, WordText(w) + rest)
         == LiteralFound(cfg, st.(afterCr := false), |WordText(w)|, if w.Null? then Option.None else Some(w.True?))
  {
    var s := WordText(w) + rest;
    var tail := if w.True? then RUE else if w.False? then ALSE else ULL;
    assert s[1..1 + |tail|] == tail && tail[..|tail|] == tail;
  }

  /** The first byte of a value or key token settles which one it must be. */
  lemma LiteralOf(cfg: Config, shape: Shape, a: Account, s: Bytes) returns (w: Word)
    requires s != [] && (s[0] == 0x74 || s[0] == 0x66 || s[0] == 0x6E)
    requires End(cfg, At(cfg, shape, a), s).Some?
    ensures shape.state == ExpectValue && WordText(w) <= s
  {
    hide Run;
    w := if s[0] == 0x74 then True else if s[0] == 0x66 then False else Null;
    if !Unit(cfg, At(cfg, shape, a), s).Go? {
      EndFails(cfg, At(cfg, shape, a), s);
    } else {
      var tail := if w.True? then RUE else if w.False? then ALSE else ULL;
      assert tail[..|tail|] == tail;
      assert s[1..1 + |tail|] == tail;
      assert s[..|tail| + 1] == [s[0]] + tail;
    }
  }

  // ---------- Strings ----------

  function Closing(st: St, text: Bytes, units: nat): St {
    var moved := Advance(st, units + 1);
    Report(moved.(log := JoinContent(st.log, text)), EndString(moved.at)).(mode := Plain, state := AfterValue)
  }

  lemma ClosingMerges(st: St, raw: nat, text: Bytes, units: nat, more: Bytes, moreUnits: nat)
    requires text != []
    ensures Closing(Report(Advance(st, units), Content(text)).(mode := InString(raw)), more, moreUnits)
         == Closing(st, text + more, units + moreUnits)
  {
    JoinContentTwice(st.log, text, more);
  }

  lemma QuoteUnit(cfg: Config, st: St, raw: nat, s: Bytes)
    requires st.mode == InString(raw) && s != [] && s[0] == QUOTE
    ensures Unit(cfg, st, s) == Go(Closing(st, [], 0), 1)
  {
  }

  /** Where a string ends that reads as `r`. */
  function Expected(cfg: Config, st: St, raw: nat, s: Bytes, r: Reading): Option<St> {
    match r
    case Whole(text, n, units) =>
      if 0 < n <= |s| && !Exceeds(raw + n - 1, cfg.limits.stringLength) then End(cfg, Closing(st, text, units), s[n..]) else None
    case _ => None
  }

  predicate ExpectedRoom(cfg: Config, st: St, raw: nat, s: Bytes, r: Reading, capacity: nat) {
    r.Whole? && 0 < r.n <= |s| && !Exceeds(raw + r.n - 1, cfg.limits.stringLength) ==>
      KeysFit(cfg, Closing(st, r.text, r.units), s[r.n..], capacity)
  }

  /** No key is due inside a string or a number. */
  lemma {:induction false} RoomInside(cfg: Config, st: St, s: Bytes, capacity: nat)
    requires !st.mode.Plain? && s != []
    ensures match Unit(cfg, st, s)
            case Go(next, n) => KeysFit(cfg, st, s, capacity) <==> KeysFit(cfg, next, s[n..], capacity)
            case _ => KeysFit(cfg, st, s, capacity)
  {
    hide Unit;
  }

  /** Inside a string, the machine does what reading all of it says. */
  lemma {:induction false} RunReads(cfg: Config, st: St, raw: nat, s: Bytes, capacity: nat)
    requires st.mode == InString(raw) && !Exceeds(raw, cfg.limits.stringLength)
    ensures End(cfg, st, s) == Expected(cfg, st, raw, s, ReadString(s))
    ensures KeysFit(cfg, st, s, capacity) <==> ExpectedRoom(cfg, st, raw, s, ReadString(s), capacity)
    decreases |s|
  {
    if s == [] {
      UnfinishedString(cfg, st, raw);
    } else if PieceAt(s).Chars? {
      var p := PieceAt(s);
      PieceUnit(cfg, st, raw, s);
      KeyRuns.ReadOne(s);
      RoomInside(cfg, st, s, capacity);
      hide Run, KeysFit, Closing, ReadString, PieceAt, Unit, Advance, Report, End, Expected, ExpectedRoom;
      if Exceeds(raw + p.n, cfg.limits.stringLength) {
        EndFails(cfg, st, s);
      } else {
        EndGoes(cfg, st, s, AfterPiece(st, raw, p), p.n);
        RunReads(cfg, AfterPiece(st, raw, p), raw + p.n, s[p.n..], capacity);
      }
      ExpectedAfterPiece(cfg, st, raw, s, p, ReadString(s[p.n..]), capacity);
    } else if PieceAt(s).Quote? {
      hide Run, KeysFit, Closing, Unit;
      QuoteUnit(cfg, st, raw, s);
      RoomInside(cfg, st, s, capacity);
      EndGoes(cfg, st, s, Closing(st, [], 0), 1);
    } else {
      hide Run, KeysFit;
      RoomInside(cfg, st, s, capacity);
      EndFails(cfg, st, s);
    }
  }

  lemma ExpectedAfterPiece(cfg: Config, st: St, raw: nat, s: Bytes, p: Piece, r: Reading, capacity: nat)
    requires p.Chars? && p.text != [] && p.n <= |s| && (r.Whole? ==> 0 < r.n <= |s| - p.n)
    ensures Expected(cfg, st, raw, s, KeyRuns.Prepend(p.text, p.n, p.units, r))
         == if Exceeds(raw + p.n, cfg.limits.stringLength) then None
            else Expected(cfg, AfterPiece(st, raw, p), raw + p.n, s[p.n..], r)
    ensures ExpectedRoom(cfg, st, raw, s, KeyRuns.Prepend(p.text, p.n, p.units, r), capacity)
         == (Exceeds(raw + p.n, cfg.limits.stringLength)
             || ExpectedRoom(cfg, AfterPiece(st, raw, p), raw + p.n, s[p.n..], r, capacity))
  {
    hide Run, KeysFit, Closing, Advance, Report, End;
    if r.Whole? {
      assert s[p.n..][r.n..] == s[p.n + r.n..];
      ClosingAfterPiece(st, raw, p, r.text, r.units);
    }
  }

  lemma ClosingAfterPiece(st: St, raw: nat, p: Piece, text: Bytes, units: nat)
    requires p.Chars? && p.text != []
    ensures Closing(AfterPiece(st, raw, p), text, units) == Closing(st, p.text + text, p.units + units)
  {
    ClosingMerges(st, raw + p.n, p.text, p.units, text, units);
  }

  function AfterPiece(st: St, raw: nat, p: Piece): (next: St)
    requires p.Chars?
    ensures next.mode == InString(raw + p.n)
  {
    Report(Advance(st, p.units), Content(p.text)).(mode := InString(raw + p.n))
  }

  lemma PieceUnit(cfg: Config, st: St, raw: nat, s: Bytes)
    requires st.mode == InString(raw) && s != [] && PieceAt(s).Chars?
    ensures var p := PieceAt(s);
            Unit(cfg, st, s) == if Exceeds(raw + p.n, cfg.limits.stringLength) then Machine.Bad
                                else Go(AfterPiece(st, raw, p), p.n)
  {
  }

  lemma UnfinishedString(cfg: Config, st: St, raw: nat)
    requires st.mode == InString(raw)
    ensures End(cfg, st, []).None? && ReadString([]) == Unfinished
  {
  }

  lemma StringRun(cfg: Config, shape: Shape, a: Account, raw: Content, rest: Bytes, capacity: nat)
    requires shape.state == ExpectValue
    ensures var next, after := shape.(state := AfterValue, afterComma := false), AfterString(a, raw);
            var fits := TokensFit(cfg, after) && !Exceeds(|raw|, cfg.limits.stringLength);
            && End(cfg, At(cfg, shape, a), [QUOTE] + raw + [QUOTE] + rest)
               == (if fits then End(cfg, At(cfg, next, after), rest) else None)
            && (KeysFit(cfg, At(cfg, shape, a), [QUOTE] + raw + [QUOTE] + rest, capacity)
                <==> (fits ==> KeysFit(cfg, At(cfg, next, after), rest, capacity)))
  {
    hide Run, End, KeysFit, PosOf, ReadString, IsContent, Decode;
    if TokensFit(cfg, AfterString(a, raw)) {
      StringTaken(cfg, shape, a, raw, rest, capacity);
    } else {
      EndFails(cfg, At(cfg, shape, a), [QUOTE] + raw + [QUOTE] + rest);
      RoomFails(cfg, At(cfg, shape, a), [QUOTE] + raw + [QUOTE] + rest, capacity);
    }
  }

  lemma StringTaken(cfg: Config, shape: Shape, a: Account, raw: Content, rest: Bytes, capacity: nat)
    requires shape.state == ExpectValue && TokensFit(cfg, AfterString(a, raw))
    ensures var next, after := shape.(state := AfterValue, afterComma := false), AfterString(a, raw);
            var fits := !Exceeds(|raw|, cfg.limits.stringLength);
            && End(cfg, At(cfg, shape, a), [QUOTE] + raw + [QUOTE] + rest)
               == (if fits then End(cfg, At(cfg, next, after), rest) else None)
            && (KeysFit(cfg, At(cfg, shape, a), [QUOTE] + raw + [QUOTE] + rest, capacity)
                <==> (fits ==> KeysFit(cfg, At(cfg, next, after), rest, capacity)))
  {
    hide Run, KeysFit, PosOf, ReadString, IsContent, Decode, Closing;
    var s, inside := [QUOTE] + raw + [QUOTE] + rest, raw + [QUOTE] + rest;
    var st := At(cfg, shape, a);
    var begun := StartStringStep(cfg, st.(afterCr := false)).st;
    assert s[1..] == inside && inside[|raw| + 1..] == rest;
    StringClosed(cfg, shape, a, raw);
    assert Unit(cfg, st, s) == Go(begun, 1);
    hide Unit, At, StartStringStep;
    EndGoes(cfg, st, s, begun, 1);
    RoomGoes(cfg, st, s, begun, 1, capacity);
    ReadContent(raw, rest);
    RunReads(cfg, begun, 0, inside, capacity);
  }

  /** From opening quote to closing quote, a string's account is kept. */
  lemma StringClosed(cfg: Config, shape: Shape, a: Account, raw: Content)
    requires shape.state == ExpectValue && TokensFit(cfg, AfterString(a, raw))
    ensures var opening := StartStringStep(cfg, At(cfg, shape, a).(afterCr := false));
            && opening.Go? && opening.n == 1 && opening.st.mode == InString(0)
            && Closing(opening.st, Decode(raw), Scanning.CountUnits(raw))
               == At(cfg, shape.(state := AfterValue, afterComma := false), AfterString(a, raw))
  {
    hide PosOf, IsContent, Decode, JoinContent, Scanning.CountUnits;
    var start := a.text + [QUOTE];
    PosAfterByte(a.text, QUOTE);
    ContentOnLine(raw);
    PosOnLine(start, raw);
    PosAfterByte(start + raw, QUOTE);
  }

  lemma StringOf(cfg: Config, shape: Shape, a: Account, s: Bytes) returns (raw: Content, rest: Bytes)
    requires s != [] && s[0] == QUOTE && shape.state != ExpectKey
    requires End(cfg, At(cfg, shape, a), s).Some?
    ensures shape.state == ExpectValue && s == [QUOTE] + raw + [QUOTE] + rest
  {
    hide Run, KeysFit, Closing, PosOf, ReadString, IsContent, Decode;
    var st := At(cfg, shape, a);
    if !Unit(cfg, st, s).Go? {
      EndFails(cfg, st, s);
    }
    var begun := Unit(cfg, st, s).st;
    EndGoes(cfg, st, s, begun, 1);
    RunReads(cfg, begun, 0, s[1..], 0);
    ContentOf(s[1..]);
    var n := ReadString(s[1..]).n;
    raw, rest := s[1..][..n - 1], s[1..][n..];
    QuoteAt(s[1..], n - 1);
    assert [QUOTE] + (raw + [QUOTE] + rest) == [QUOTE] + raw + [QUOTE] + rest;
    assert s == [QUOTE] + s[1..];
  }

  // ---------- Keys ----------

  lemma KeyRun(cfg: Config, shape: Shape, a: Account, raw: Content, rest: Bytes, capacity: nat)
    requires shape.state == ExpectKey
    ensures var noted, after := NoteKey(cfg, shape.dups, Decode(raw)), Grammar.AfterKey(a, raw);
            var fits := TokensFit(cfg, after) && !Exceeds(|raw|, cfg.limits.nameLength) && |Decode(raw)| <= cfg.chunk && noted.Some?;
            && End(cfg, At(cfg, shape, a), [QUOTE] + raw + [QUOTE] + rest)
               == (if fits then End(cfg, At(cfg, Shape(shape.stack, ExpectColon, false, noted.value), after), rest) else None)
            && (|raw| + 2 <= capacity ==>
                  (KeysFit(cfg, At(cfg, shape, a), [QUOTE] + raw + [QUOTE] + rest, capacity)
                   <==> (fits ==> KeysFit(cfg, At(cfg, Shape(shape.stack, ExpectColon, false, noted.value), after), rest, capacity))))
  {
    var bytes := [QUOTE] + raw + [QUOTE];
    var noted, after := NoteKey(cfg, shape.dups, Decode(raw)), Grammar.AfterKey(a, raw);
    var fits := TokensFit(cfg, after) && !Exceeds(|raw|, cfg.limits.nameLength) && |Decode(raw)| <= cfg.chunk && noted.Some?;
    KeyGoes(cfg, shape, a, raw, rest);
    if |bytes| <= capacity {
      KeyInSight(cfg, At(cfg, shape, a), raw, rest, capacity);
    }
    hide Unit, At, KeySeen, KeysFit, Run, IsContent, Decode, NoteKey, Grammar.AfterKey;
    var next := if noted.Some? then At(cfg, Shape(shape.stack, ExpectColon, false, noted.value), after) else At(cfg, shape, a);
    EndAfter(cfg, At(cfg, shape, a), bytes, rest, next, fits, capacity);
  }

  lemma KeyGoes(cfg: Config, shape: Shape, a: Account, raw: Content, rest: Bytes)
    requires shape.state == ExpectKey
    ensures var noted, after := NoteKey(cfg, shape.dups, Decode(raw)), Grammar.AfterKey(a, raw);
            Unit(cfg, At(cfg, shape, a), [QUOTE] + raw + [QUOTE] + rest)
            == if TokensFit(cfg, after) && !Exceeds(|raw|, cfg.limits.nameLength) && |Decode(raw)| <= cfg.chunk && noted.Some?
               then Go(At(cfg, Shape(shape.stack, ExpectColon, false, noted.value), after), |raw| + 2) else Machine.Bad
  {
    hide PosOf, ReadString, IsContent, Decode, ScanKey, NoteKey, EndsInCr, Scanning.CountUnits;
    KeyIsRead(raw, rest, cfg.limits.nameLength);
    PosAfterByte(a.text, QUOTE);
    ContentOnLine(raw);
    PosOnLine(a.text + [QUOTE], raw);
    PosAfterByte(a.text + [QUOTE] + raw, QUOTE);
    KeyUnit(cfg, At(cfg, shape, a), [QUOTE] + raw + [QUOTE] + rest);
    hide Unit, KeyStep;
  }

  /** A key's end is in sight if all of the key is. */
  lemma KeyInSight(cfg: Config, st: St, raw: Content, rest: Bytes, capacity: nat)
    requires |raw| + 2 <= capacity
    ensures KeySeen(cfg, st, [QUOTE] + raw + [QUOTE] + rest, capacity)
  {
    hide IsContent, Decode, ScanKey, ReadString;
    var s := [QUOTE] + raw + [QUOTE] + rest;
    if |s| >= capacity {
      var seen := rest[..capacity - |raw| - 2];
      assert s[..capacity] == [QUOTE] + raw + [QUOTE] + seen;
      KeyIsRead(raw, seen, cfg.limits.nameLength);
    }
  }

  /** And not before. */
  lemma KeyOutOfSight(cfg: Config, st: St, raw: Content, rest: Bytes, capacity: nat)
    requires capacity < |raw| + 2 && !Exceeds(|raw|, cfg.limits.nameLength) && st.mode.Plain? && st.state == ExpectKey
    ensures !KeysFit(cfg, st, [QUOTE] + raw + [QUOTE] + rest, capacity)
  {
    hide IsContent, Decode, ScanKey, ReadString, Unit;
    var s := [QUOTE] + raw + [QUOTE] + rest;
    KeyIsRead(raw, rest, cfg.limits.nameLength);
    assert s == s[..capacity] + s[capacity..];
    if !ScanKey(s[..capacity], 1, cfg.limits.nameLength).KeyNeed? {
      Chunks.ScanKeyStable(s[..capacity], s[capacity..], 1, cfg.limits.nameLength);
    }
  }

  lemma {:induction false} KeyUnit(cfg: Config, st: St, s: Bytes)
    requires st.mode.Plain? && st.state == ExpectKey && s != [] && s[0] == QUOTE
    ensures var k := ScanKey(s, 1, cfg.limits.nameLength);
            Unit(cfg, st, s)
            == if k.KeyBad? then Machine.Bad
               else if k.KeyNeed? then Wait(st.(afterCr := false))
               else match KeyReading(s, k.end)
                    case Whole(key, _, units) =>
                      var found := KeyFound(cfg, st.(afterCr := false), key, units);
                      if |key| > cfg.chunk || found.None? then Machine.Bad
                      else TokenDone(cfg, Machine.AfterKey(found.value), k.end + 1)
                    case _ => Machine.Bad
  {
  }

  lemma KeyOf(cfg: Config, shape: Shape, a: Account, s: Bytes) returns (raw: Content, rest: Bytes)
    requires s != [] && s[0] == QUOTE && shape.state == ExpectKey
    requires End(cfg, At(cfg, shape, a), s).Some?
    ensures s == [QUOTE] + raw + [QUOTE] + rest
  {
    hide Run, PosOf, ReadString, IsContent, Decode, ScanKey, NoteKey;
    var st := At(cfg, shape, a);
    if !Unit(cfg, st, s).Go? {
      EndFails(cfg, st, s);
    }
    KeyContent(s, cfg.limits.nameLength);
    raw := s[1..ScanKey(s, 1, cfg.limits.nameLength).end];
    rest := s[|raw| + 2..];
  }

  // ---------- Numbers ----------

  /** More bytes of a number, up to the limit on its length. */
  lemma {:induction false} MoreOfNumber(cfg: Config, st: St, num: Numbers.Num, more: Bytes, rest: Bytes, capacity: nat)
    requires st.mode == InNumber(num) && num.stage != Numbers.Idle && NumberLaws.Read(num, more).Some?
    ensures var m := NumberLaws.Read(num, more).value;
            var fits := more == [] || !Exceeds(m.length, cfg.limits.numberLength);
            && End(cfg, st, more + rest) == (if fits then End(cfg, st.(mode := InNumber(m)), rest) else None)
            && (KeysFit(cfg, st, more + rest, capacity) <==> (fits ==> KeysFit(cfg, st.(mode := InNumber(m)), rest, capacity)))
    decreases |more|
  {
    hide Run, KeysFit, Numbers.TakeByte;
    if more == [] {
      assert more + rest == rest;
    } else {
      var s := more + rest;
      var next := Numbers.Continue(num, more[0]).num;
      assert s[1..] == more[1..] + rest;
      RoomInside(cfg, st, s, capacity);
      if Exceeds(next.length, cfg.limits.numberLength) {
        EndFails(cfg, st, s);
      } else {
        EndGoes(cfg, st, s, st.(mode := InNumber(next)), 1);
        MoreOfNumber(cfg, st.(mode := InNumber(next)), next, more[1..], rest, capacity);
      }
    }
  }

  /** The number ends before `rest`. */
  predicate Ends(num: Numbers.Num, rest: Bytes) {
    num.stage != Numbers.Idle && if rest == [] then Numbers.Complete(num) else Numbers.Continue(num, rest[0]).End?
  }

  lemma NumberEnds(cfg: Config, st: St, num: Numbers.Num, rest: Bytes, capacity: nat)
    requires st.mode == InNumber(num) && Ends(num, rest)
    ensures End(cfg, st, rest) == End(cfg, EmitNumber(st, num), rest)
    ensures KeysFit(cfg, st, rest, capacity) <==> KeysFit(cfg, EmitNumber(st, num), rest, capacity)
  {
    if rest != [] {
      assert rest[0..] == rest;
      RoomInside(cfg, st, rest, capacity);
      hide KeysFit;
      EndGoes(cfg, st, rest, EmitNumber(st, num), 0);
    }
  }

  /** The part of `s` that belongs to the number in progress. */
  lemma {:induction false} NumberOf(cfg: Config, st: St, num: Numbers.Num, s: Bytes) returns (more: Bytes, rest: Bytes)
    requires st.mode == InNumber(num) && num.stage != Numbers.Idle && End(cfg, st, s).Some?
    ensures s == more + rest && NumberLaws.Read(num, more).Some? && Ends(NumberLaws.Read(num, more).value, rest)
    decreases |s|
  {
    hide Numbers.TakeByte;
    if s == [] {
      more, rest := [], [];
    } else {
      match Numbers.Continue(num, s[0])
      case Next(next) =>
        more, rest := NumberOf(cfg, st.(mode := InNumber(next)), next, s[1..]);
        assert ([s[0]] + more)[1..] == more;
        assert s == [s[0]] + s[1..];
        more := [s[0]] + more;
      case _ => more, rest := [], s;
    }
  }

  /** What ends a number: whitespace, a comma or a closing bracket. */
  predicate EndsNumber(rest: Bytes) {
    rest != [] ==> IsWhitespace(rest[0]) || rest[0] == COMMA || rest[0] == RBRACKET || rest[0] == RBRACE
  }

  lemma EndsNumberEnds(num: Numbers.Num, rest: Bytes)
    requires Numbers.Complete(num) && EndsNumber(rest)
    ensures Ends(num, rest)
  {
    if rest != [] {
      Numbers.EndsOnlyWhenComplete(num, rest[0]);
    }
  }

  lemma NumberRun(cfg: Config, shape: Shape, a: Account, t: Numeral, rest: Bytes, capacity: nat)
    requires shape.state == ExpectValue && Ends(NumberLaws.AfterToken(t), rest)
    ensures var next, after := shape.(state := AfterValue, afterComma := false), AfterNumeral(a, t);
            var fits := TokensFit(cfg, after) && (|NumberLaws.Text(t)| <= 1 || !Exceeds(|NumberLaws.Text(t)|, cfg.limits.numberLength));
            && End(cfg, At(cfg, shape, a), NumberLaws.Text(t) + rest)
               == (if fits then End(cfg, At(cfg, next, after), rest) else None)
            && (KeysFit(cfg, At(cfg, shape, a), NumberLaws.Text(t) + rest, capacity)
                <==> (fits ==> KeysFit(cfg, At(cfg, next, after), rest, capacity)))
  {
    hide Run, KeysFit, PosOf, NumberLaws.Text, NumberLaws.Read, NumberLaws.AfterToken, NumberLaws.WellFormed, NumberLaws.Meaning;
    var text := NumberLaws.Text(t);
    var num := NumberLaws.AfterToken(t);
    var s := text + rest;
    var st := At(cfg, shape, a);
    NumberLaws.ReadToken(t);
    var begun := st.(afterCr := false, mode := InNumber(Numbers.Start(text[0])), afterComma := false, seen := true,
                     tokens := if cfg.limits.tokenCount.Some? then a.tokens + 1 else 0);
    if TokensFit(cfg, AfterNumeral(a, t)) {
      StartsNumber(cfg, st, s, begun);
      EndGoes(cfg, st, s, begun, 1);
      RoomGoes(cfg, st, s, begun, 1, capacity);
      assert s[1..] == text[1..] + rest;
      MoreOfNumber(cfg, begun, Numbers.Start(text[0]), text[1..], rest, capacity);
      NumberEnds(cfg, begun.(mode := InNumber(num)), num, rest, capacity);
      NumeralOnLine(t);
      PosAfterAscii(a.text, text);
    } else {
      EndFails(cfg, st, s);
      RoomFails(cfg, st, s, capacity);
    }
  }

  lemma StartsNumber(cfg: Config, st: St, s: Bytes, begun: St)
    requires s != [] && (s[0] == MINUS || IsDigit(s[0])) && st.mode.Plain? && st.state == ExpectValue
    requires var tokens := if cfg.limits.tokenCount.Some? then st.tokens + 1 else st.tokens;
             !Exceeds(tokens, cfg.limits.tokenCount)
             && begun == st.(afterCr := false, mode := InNumber(Numbers.Start(s[0])), afterComma := false, seen := true, tokens := tokens)
    ensures Unit(cfg, st, s) == Go(begun, 1)
  {
  }

  lemma NumeralOnLine(t: Numeral)
    ensures NoBreaks(NumberLaws.Text(t)) && Scanning.IsAscii(NumberLaws.Text(t)) && NumberLaws.Text(t) != []
  {
    Parts(NumberLaws.WholeText(t), NumberLaws.FractionText(t), NumberLaws.ExponentText(t.exponent));
  }

  lemma Parts(a: Bytes, b: Bytes, c: Bytes)
    requires NoBreaks(a) && NoBreaks(b) && NoBreaks(c) && Scanning.IsAscii(a) && Scanning.IsAscii(b) && Scanning.IsAscii(c)
    ensures NoBreaks(a + b + c) && Scanning.IsAscii(a + b + c)
  {
  }

  lemma NumeralOf(cfg: Config, shape: Shape, a: Account, s: Bytes) returns (t: Numeral, rest: Bytes)
    requires s != [] && (s[0] == MINUS || IsDigit(s[0])) && End(cfg, At(cfg, shape, a), s).Some?
    ensures shape.state == ExpectValue && s == NumberLaws.Text(t) + rest && Ends(NumberLaws.AfterToken(t), rest)
  {
    hide Run, PosOf, NumberLaws.Text, NumberLaws.Read, NumberLaws.AfterToken;
    var st := At(cfg, shape, a);
    if !Unit(cfg, st, s).Go? {
      EndFails(cfg, st, s);
    }
    var begun := Unit(cfg, st, s).st;
    EndGoes(cfg, st, s, begun, 1);
    var num := Numbers.Start(s[0]);
    var more;
    more, rest := NumberOf(cfg, begun, num, s[1..]);
    var text := [s[0]] + more;
    assert text[1..] == more && s == text + rest;
    var m := NumberLaws.Read(num, more).value;
    if rest != [] {
      Numbers.EndsOnlyWhenComplete(m, rest[0]);
    }
    t := NumberLaws.TokenOf(text);
    NumberLaws.ReadToken(t);
  }
}
