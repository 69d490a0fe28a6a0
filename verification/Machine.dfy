// The tokenizer's meaning, one indivisible unit of input at a time: a whole
// key, literal or punctuation mark, one whitespace byte, one byte of a number,
// one character or escape of a string.
module Machine {
  import opened Base
  import opened Events
  import Utf8
  import Escapes
  import Numbers

  datatype Limits = Limits(
    nestingDepth: Option<nat>,
    numberLength: Option<nat>,
    stringLength: Option<nat>,
    nameLength: Option<nat>,
    documentLength: Option<nat>,
    tokenCount: Option<nat>)

  /** What is fixed for a document. */
  datatype Config = Config(limits: Limits, chunk: nat, rejectDuplicates: bool, needsWhitespace: bool)

  predicate Exceeds(n: int, limit: Option<nat>) {
    limit.Some? && n > limit.value
  }

  datatype Context = InArray | InObject
  datatype State = ExpectValue | ExpectKey | ExpectColon | AfterValue

  /** Between tokens, inside a string after `raw` bytes of it, or inside a number. */
  datatype Mode = Plain | InString(raw: nat) | InNumber(num: Numbers.Num)

  datatype St = St(
    stack: seq<Context>,
    state: State,
    seen: bool,
    afterComma: bool,
    afterCr: bool,
    tokens: nat,
    dups: seq<set<Bytes>>,
    mode: Mode,
    log: Log,
    at: Pos)

  const INITIAL := St([], ExpectValue, false, false, false, 0, [], Plain, [], Pos(1, 1))

  /** How one unit goes: it is undecided on these bytes, it makes the document
      bad, or it takes `n` bytes. */
  datatype Outcome = Wait(st: St) | Bad | Go(st: St, n: nat)

  // ---------- Strings ----------

  /** The front of a string's raw content. */
  datatype Piece = Partial | Malformed | Quote | Chars(text: Bytes, n: nat, units: nat)

  function PieceAt(s: Bytes): (p: Piece)
    requires |s| > 0
    ensures p.Chars? ==> 1 <= p.n <= |s| && 1 <= |p.text| <= 4
    ensures p.Partial? ==> |s| <= 11
  {
    if s[0] == QUOTE then Quote
    else if s[0] == BACKSLASH then
      match Escapes.Resolve(s)
      case Need => Partial
      case Bad => Malformed
      case Char(cp, len) => Chars(Utf8.Encode(cp), len, len)
    else if s[0] < SPACE then Malformed
    else
      match Utf8.CharAt(s)
      case Need => Partial
      case Bad => Malformed
      case Len(n) => Chars(s[..n], n, if n == 4 then 2 else 1)
  }

  /** A whole string read from just after its opening quote: its decoded text, the
      raw bytes it takes with its closing quote, and its UTF-16 units without. */
  datatype Reading = Unfinished | Unreadable | Whole(text: Bytes, n: nat, units: nat)

  function ReadString(s: Bytes): (r: Reading)
    ensures r.Whole? ==> 1 <= r.n <= |s|
    decreases |s|
  {
    if s == [] then Unfinished
    else
      match PieceAt(s)
      case Partial => Unfinished
      case Malformed => Unreadable
      case Quote => Whole([], 1, 0)
      case Chars(text, n, units) =>
        match ReadString(s[n..])
        case Whole(rest, m, more) => Whole(text + rest, n + m, units + more)
        case r => r
  }

  // ---------- Keys ----------

  datatype KeyScan = KeyNeed | KeyBad | KeyEnd(end: nat)

  /** Looks from `i` for the closing quote of the key whose opening quote is at 0. */
  function ScanKey(s: Bytes, i: nat, limit: Option<nat>): (k: KeyScan)
    requires i >= 1
    ensures k.KeyEnd? ==> i <= k.end < |s| && s[k.end] == QUOTE
    decreases |s| - i
  {
    if i >= |s| then KeyNeed
    else if Exceeds(i - 1, limit) then KeyBad
    else if s[i] == QUOTE then KeyEnd(i)
    else if s[i] == BACKSLASH then ScanKey(s, i + 2, limit)
    else if s[i] < SPACE then KeyBad
    else ScanKey(s, i + 1, limit)
  }

  // ---------- Steps ----------

  function Advance(st: St, columns: nat): St {
    st.(at := Pos(st.at.line, st.at.column + columns))
  }

  function Report(st: St, e: Event): St {
    st.(log := Join(st.log, e))
  }

  /** A token is complete: it counts towards the limit. */
  function TokenDone(cfg: Config, st: St, n: nat): Outcome {
    var tokens := if cfg.limits.tokenCount.Some? then st.tokens + 1 else st.tokens;
    if Exceeds(tokens, cfg.limits.tokenCount) then Bad
    else Go(st.(seen := true, tokens := tokens), n)
  }

  function Top(stack: seq<Context>): Option<Context> {
    if stack == [] then None else Some(stack[|stack| - 1])
  }

  function Pop<T>(s: seq<T>): seq<T> {
    if s == [] then [] else s[..|s| - 1]
  }

  function WhitespaceStep(cfg: Config, st: St, b: Byte): St {
    var at := if b == LF then Pos(if st.afterCr then st.at.line else st.at.line + 1, 1)
              else if b == CR then Pos(st.at.line + 1, 1)
              else Pos(st.at.line, st.at.column + 1);
    var moved := st.(at := at, afterCr := b == CR);
    if cfg.needsWhitespace then Report(moved, Whitespace([b])) else moved
  }

  function OpenFound(cfg: Config, st: St, context: Context): Outcome {
    var moved := Advance(st, 1);
    var grown := Report(moved, if context == InObject then StartObject(moved.at) else StartArray(moved.at));
    TokenDone(cfg, grown.(
      stack := grown.stack + [context],
      dups := if context == InObject && cfg.rejectDuplicates then grown.dups + [{}] else grown.dups,
      afterComma := false,
      state := if context == InObject then ExpectKey else ExpectValue), 1)
  }

  function OpenStep(cfg: Config, st: St, context: Context): Outcome {
    if st.state != ExpectValue || Exceeds(|st.stack| + 1, cfg.limits.nestingDepth) then Bad
    else OpenFound(cfg, st, context)
  }

  function CloseFound(cfg: Config, st: St, context: Context): Outcome {
    var moved := Advance(st, 1);
    var closed := Report(moved, if context == InObject then EndObject(moved.at) else EndArray(moved.at));
    TokenDone(cfg, closed.(
      stack := Pop(closed.stack),
      dups := if context == InObject && cfg.rejectDuplicates then Pop(closed.dups) else closed.dups,
      afterComma := false,
      state := AfterValue), 1)
  }

  function CloseStep(cfg: Config, st: St, context: Context): Outcome {
    var empty := if context == InObject then ExpectKey else ExpectValue;
    if Top(st.stack) != Some(context) || (st.state != empty && st.state != AfterValue) || st.afterComma then Bad
    else CloseFound(cfg, st, context)
  }

  function CommaStep(cfg: Config, st: St): Outcome {
    if st.state != AfterValue || st.stack == [] then Bad
    else TokenDone(cfg, Advance(st, 1).(
      afterComma := true,
      state := if Top(st.stack) == Some(InObject) then ExpectKey else ExpectValue), 1)
  }

  function ColonStep(cfg: Config, st: St): Outcome {
    if st.state != ExpectColon then Bad
    else TokenDone(cfg, Advance(st, 1).(afterComma := false, state := ExpectValue), 1)
  }

  function StartStringStep(cfg: Config, st: St): Outcome {
    var moved := Advance(st, 1);
    TokenDone(cfg, Report(moved, StartString(moved.at)).(mode := InString(0), afterComma := false), 1)
  }

  const RUE: Bytes := [0x72, 0x75, 0x65]
  const ALSE: Bytes := [0x61, 0x6C, 0x73, 0x65]
  const ULL: Bytes := [0x75, 0x6C, 0x6C]

  /** A literal whose first byte is at the front of `s` and whose others are `rest`. */
  function LiteralStep(cfg: Config, st: St, s: Bytes, rest: Bytes, value: Option<bool>): Outcome
    requires |s| > 0
  {
    var present := Min(|s| - 1, |rest|);
    if st.state != ExpectValue || s[1..1 + present] != rest[..present] then Bad
    else if present < |rest| then Wait(st)
    else LiteralFound(cfg, st, 1 + |rest|, value)
  }

  function LiteralFound(cfg: Config, st: St, n: nat, value: Option<bool>): Outcome {
    var moved := Advance(st, n);
    var event := if value.Some? then BooleanValue(value.value, moved.at) else NullValue(moved.at);
    TokenDone(cfg, Report(moved, event).(afterComma := false, state := AfterValue), n)
  }

  /** A key already seen in this object is an error, if that is asked for. */
  function NoteKey(cfg: Config, dups: seq<set<Bytes>>, key: Bytes): Option<seq<set<Bytes>>> {
    if !cfg.rejectDuplicates || dups == [] then Some(dups)
    else
      var last := |dups| - 1;
      if key in dups[last] then None else Some(dups[..last] + [dups[last] + {key}])
  }

  function KeyReading(s: Bytes, end: nat): Reading
    requires 1 <= end < |s|
  {
    ReadString(s[1..end + 1])
  }

  /** A key is reported, unless it repeats one. */
  function KeyFound(cfg: Config, st: St, key: Bytes, units: nat): Option<St> {
    var moved := Advance(st, 2 + units);
    match NoteKey(cfg, st.dups, key)
    case None => None
    case Some(dups) => Some(Report(moved, Key(key, moved.at)).(dups := dups))
  }

  function AfterKey(st: St): St {
    st.(afterComma := false, state := ExpectColon)
  }

  function KeyStep(cfg: Config, st: St, s: Bytes): Outcome
    requires |s| > 0
  {
    match ScanKey(s, 1, cfg.limits.nameLength)
    case KeyNeed => Wait(st)
    case KeyBad => Bad
    case KeyEnd(end) =>
      match KeyReading(s, end)
      case Whole(key, _, units) =>
        var found := KeyFound(cfg, st, key, units);
        if |key| > cfg.chunk || found.None? then Bad
        else TokenDone(cfg, AfterKey(found.value), end + 1)
      case _ => Bad
  }

  function StartNumberStep(cfg: Config, st: St, b: Byte): Outcome
    requires b == MINUS || IsDigit(b)
  {
    if st.state != ExpectValue then Bad
    else TokenDone(cfg, st.(mode := InNumber(Numbers.Start(b)), afterComma := false), 1)
  }

  function TokenStep(cfg: Config, st: St, s: Bytes): Outcome
    requires |s| > 0
  {
    var b := s[0];
    if b == QUOTE then
      if st.state == ExpectKey then KeyStep(cfg, st, s)
      else if st.state == ExpectValue then StartStringStep(cfg, st)
      else Bad
    else if b == COMMA then CommaStep(cfg, st)
    else if b == COLON then ColonStep(cfg, st)
    else if b == LBRACE then OpenStep(cfg, st, InObject)
    else if b == RBRACE then CloseStep(cfg, st, InObject)
    else if b == LBRACKET then OpenStep(cfg, st, InArray)
    else if b == RBRACKET then CloseStep(cfg, st, InArray)
    else if b == 0x74 then LiteralStep(cfg, st, s, RUE, Some(true))
    else if b == 0x66 then LiteralStep(cfg, st, s, ALSE, Some(false))
    else if b == 0x6E then LiteralStep(cfg, st, s, ULL, None)
    else if b == MINUS || IsDigit(b) then StartNumberStep(cfg, st, b)
    else Bad
  }

  function StringStep(cfg: Config, st: St, raw: nat, s: Bytes): Outcome
    requires |s| > 0
  {
    match PieceAt(s)
    case Partial =>
      if s[0] != BACKSLASH && Exceeds(raw + |s|, cfg.limits.stringLength) then Bad else Wait(st)
    case Malformed => Bad
    case Quote =>
      var moved := Advance(st, 1);
      Go(Report(moved, EndString(moved.at)).(mode := Plain, state := AfterValue), 1)
    case Chars(text, n, units) =>
      if Exceeds(raw + n, cfg.limits.stringLength) then Bad
      else Go(Report(Advance(st, units), Content(text)).(mode := InString(raw + n)), n)
  }

  function EmitNumber(st: St, num: Numbers.Num): St {
    var moved := Advance(st, num.length);
    Report(moved, NumberValue(Numbers.NumberValue(num), moved.at)).(mode := Plain, state := AfterValue)
  }

  function NumberStep(cfg: Config, st: St, num: Numbers.Num, b: Byte): Outcome {
    if num.stage == Numbers.Idle then Bad
    else
      match Numbers.Continue(num, b)
      case Reject => Bad
      case End => Go(EmitNumber(st, num), 0)
      case Next(next) =>
        if Exceeds(next.length, cfg.limits.numberLength) then Bad
        else Go(st.(mode := InNumber(next)), 1)
  }

  function Unit(cfg: Config, st: St, s: Bytes): (o: Outcome)
    requires |s| > 0
    ensures o.Go? ==> o.n <= |s| && (o.n == 0 ==> st.mode.InNumber? && !o.st.mode.InNumber?)
  {
    match st.mode
    case InString(raw) => StringStep(cfg, st, raw, s)
    case InNumber(num) => NumberStep(cfg, st, num, s[0])
    case Plain =>
      if IsWhitespace(s[0]) then Go(WhitespaceStep(cfg, st, s[0]), 1)
      else TokenStep(cfg, st.(afterCr := false), s)
  }

  // ---------- Runs ----------

  /** Where a run over the bytes present gets to: `rest` is the unit it waits on. */
  datatype Result = Stop(st: St, rest: Bytes) | Fail

  function Run(cfg: Config, st: St, s: Bytes): (r: Result)
    decreases |s|, st.mode.InNumber?
  {
    if s == [] then Stop(st, [])
    else
      match Unit(cfg, st, s)
      case Wait(waiting) => Stop(waiting, s)
      case Bad => Fail
      case Go(next, n) => Run(cfg, next, s[n..])
  }

  /** End of input: completes a number, if one is in progress. */
  function Finish(st: St): Option<St> {
    match st.mode
    case Plain => Some(st)
    case InString(_) => None
    case InNumber(num) => if Numbers.Complete(num) then Some(EmitNumber(st, num)) else None
  }

  /** The verdict when the whole of `s` has been given and the parser closed. */
  function Verdict(cfg: Config, s: Bytes): Option<Log> {
    match Run(cfg, INITIAL, s)
    case Fail => None
    case Stop(st, rest) =>
      if rest != [] || Finish(st).None? || !st.seen || st.stack != [] then None
      else Some(Finish(st).value.log)
  }
}
