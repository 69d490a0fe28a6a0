# A verified model of the streaming JSON parser and writer

The repository holds a push parser and a writer for JSON that share a ring of
bytes with their caller. The parser takes whatever bytes are there, uses what it
can finish and leaves the rest; the writer puts whole tokens or nothing. This
project models both and proves what they are for.

## How it is laid out

1. **A reference machine** (`Machine.dfy`): a pure state machine that takes one
   indivisible unit of input at a time (a key, a literal, a bracket, a whitespace
   byte, a byte of a number, a character or an escape of a string). `Chunks.dfy`
   proves that cutting the input changes none of its decisions, and `Passages.dfy`
   says which states it comes past.
2. **The code as it runs**: `Tokenizer.dfy`, `Parser.dfy`, `Numbers.dfy`
   (`NumberState`), `Keys.dfy`, `Scanning.dfy` and `Writer.dfy` are classes and
   methods that update fields in place and loop over runs of bytes, as the source
   does. Each is proved to do what the machine (or, for the table, a map; for the
   writer, `Layout.dfy`) does. `Parser.Close` and `Parser.Parse` carry the
   whole-run result: every way of cutting the bytes and every place where the ring
   wraps gives the verdict and the joined events of the document given at once.
3. **What the machine accepts**: `Grammar.dfy` has JSON texts as trees that keep
   every byte, with what there is to tell of them and where; `StringGrammar.dfy`,
   `NumberLaws.dfy`, `NumberValues.dfy` and `Positions.dfy` give strings, numbers and
   positions meanings of their own. All of them write out the bytes they name,
   rather than take them from the tokenizer's tables and constants; what they do share
   with it, the encoding of characters and the value of a digit, is tied to its table
   by `Utf8.EncodeTable` and `NumberValues.dfy`. `Examples.dfy` has some texts in full.
   `Prefixes.dfy` shows that the machine's states between tokens are exactly those of
   documents cut there, which gives both directions of `Acceptance.dfy`.
   `Invariants.dfy` has what holds in every reachable state, `Histories.dfy` what has
   been told in each state between tokens, `Completions.dfy` what can still become a
   document, `Misfits.dfy` and `NumberRange.dfy` when a ring and the 32-bit accumulators
   are large enough.
4. **The writer's side**: `Writer.dfy` (atomic calls), `Backpressure.dfy` (any ring,
   any draining), `WrittenTrees.dfy` and `RoundTrip.dfy` (the output is a JSON text,
   and parsing it tells the data), `Pretty.dfy` (how it is laid out). `EndToEnd.dfy`
   puts the two sides together.

Text (`&str`, `String`) is modelled as its UTF-8 bytes, and `Utf8.dfy` says which
byte strings those are. A handler writes down what it is told and never fails.
Two logs are compared after joining adjacent content pieces and adjacent
whitespace pieces; an event carries the position that the locator shows when it is
delivered, except for those pieces. A run stops at its first error; limits, chunk
size (at least 16) and the duplicate-key flag are fixed for a parser, across resets,
and every theorem is for all their values unless it says otherwise.

## Where the code and its documentation differ

The model follows the code.

- `i64::MIN` is reported as `BigInt`, which src/number.rs:12-13 keeps for integers too
  large for an `i64`: the overflow test looks at the magnitude only
  (src/tokenizer.rs:170-197). `RoundTrip.OnlyTheLeastIsBig`
  shows that this is the only integer concerned.
- The comment at src/tokenizer.rs:330 says that the character buffer is empty
  between calls; after a key with an escape it still holds the key
  (`Tokenizer.FindKey`). What holds, and is proved, is that it is cleared before each
  use and empty whenever a string waits for data.
- After an escaped high surrogate the tokenizer waits until the next escape is whole,
  even where its digits already exclude a low surrogate. `Escapes.WaitIsHopeful`
  says exactly when a partner can still come and `Escapes.WaitWithoutHope` is such
  a wait. It waits also where a byte that has come is no hex digit, though no document
  can start so: `Completions.DoomedIsRefused`, with `DoomedWaits` for an example.
  `Completions.OnlyDoomedIsRefused` shows that, outside a key, no other wait is in vain.
- A malformed multi-byte character that is cut short by the end of the data may be
  waited for rather than refused at once, where the slice it is in ends inside it, at
  the wrap of the ring or for want of room in the buffer (src/tokenizer.rs:904-946,
  1325-1348). `Tokenizer.DecodeHere` says exactly when, and `Tokenizers.RoomDecides` is
  an example. The document is rejected all the same, by then or when it is closed. The
  predicate `Waits` in `StringRuns.dfy` allows for this.
- `decimal_shift`, `exponent` and their sum are 32-bit in the code
  (src/tokenizer.rs:86, 154-160, 199-203, 237) and unbounded here. They are the same
  for every document exactly if the limit on numbers (or that on documents, or on
  tokens) refuses a number of 2,146,483,660 bytes (`NumberRange.LimitIsExact`, and
  `NumberLaws.RangeIsExact` for the power of ten), as the default of 1000 does. Under
  higher limits, or none, such a number can overflow them, and what the code then
  reports is not what is stated here.
- Interned keys are found without being decoded (src/tokenizer.rs:1025-1063), so a key
  remembered under one chunk size is accepted under a smaller one, set later, that a
  parser without it refuses it for. That interning changes nothing is proved for a
  chunk size that stays the same.
- The limit on a number's length is not checked on its first byte
  (src/tokenizer.rs:669-678), which `Grammar.Fits` states.

## Model

| member | source | states |
|---|---|---|
| Acceptance.AcceptsJson | src/tokenizer.rs:475-685 | the text of any JSON tree, after an optional byte order mark, is accepted iff it keeps the limits, and then the log is the tree's, positions included |
| Acceptance.AcceptsAllJson | src/parser.rs:281-322 | with limits off, every JSON text is accepted iff its keys' texts fit the chunk and (if asked) no object has two equal ones |
| Acceptance.AcceptsOnlyJson | src/tokenizer.rs:475-732 | whatever is accepted, under any limits, is the text of a tree that keeps them (and the tree is found) |
| Acceptance.OnlyDuplicatesRefused | src/tokenizer.rs:1270-1285 | whatever the limits, rejecting repeated keys refuses, of the texts accepted otherwise, exactly those in which two keys of one object decode to the same string |
| Acceptance.RefusingFits | src/tokenizer.rs:1066-1072 | a tree keeps a parser's settings with repeats refused iff it keeps them without, and every object's names are distinct |
| Acceptance.WithoutLimits | src/limits.rs:38-49 | with no limits set, what is left of the limit check on a tree is key length against the chunk, and distinct names |
| Prefixes.TakenCanBeCompleted | src/tokenizer.rs:407-451 | with no limits, and repeated keys allowed, whatever has been taken up to the end of a token can be completed to an accepted document |
| Completions.ReachedCanBeCompleted | src/tokenizer.rs:407-451 | the same of whatever has been received, whatever the machine waits for, unless that is a key or an escape as below |
| Completions.DoomedIsRefused | src/tokenizer.rs:1423-1448 | an unfinished escape that follows a high surrogate and already has a byte that is no hex digit is waited for, and no document starts with such a text, under any settings |
| Completions.OnlyDoomedIsRefused | src/tokenizer.rs:407-451 | with no limits and repeats allowed, outside a key: what has been received can become a document iff it does not wait for such an escape |
| Completions.DoomedWaits | src/tokenizer.rs:1423-1448 | a concrete such wait: a quote, `\uD800` and `\uZ` |
| Prefixes.Reaches | src/tokenizer.rs:475-685 | completeness: the text of a document cut anywhere between tokens takes the machine from its start to the state that prefix has, or is refused if it breaks a limit |
| Prefixes.Completes | src/tokenizer.rs:475-685 | soundness: whatever bytes are accepted from a prefix on spell out a longer prefix, in whose state the machine then is |
| Prefixes.StepMoves | src/tokenizer.rs:485-685 | each kind of last token moves the machine from the prefix without it to the prefix with it, exactly if the limits allow |
| Prefixes.NextPrefix | src/tokenizer.rs:485-685 | a byte that is taken starts a token that the grammar allows there, and the token is all there |
| Prefixes.WholeDocument | src/parser.rs:305-321 | a prefix is a whole document iff a token was seen and nothing is open: closing needs no look at the grammar state |
| Prefixes.KeyNoted | src/tokenizer.rs:1066-1072 | noting a key fails iff repeats are refused and the innermost object has the name, and else adds it to that object's names only |
| Prefixes.ShortKeysFit | src/parser.rs:41-49 | where every key of a text, raw and with its quotes, fits the ring, the end of each key is in sight once the ring is full |
| Prefixes.FittingIsShort | src/parser.rs:41-49 | a ring shows the end of each key of an accepted text iff every key, raw and with its quotes, fits it |
| Misfits.MisfitStays | src/parser.rs:213-229 | a tokenizer that sees no more than a full ring does not get past a key whose end the ring cannot show |
| TokenRuns.StringRun | src/tokenizer.rs:807-880 | a string token is told as its start, its decoded text and its end, at the text's own positions, iff its raw length is within the limit |
| TokenRuns.KeyRun | src/tokenizer.rs:981-1063 | a key token is told once, decoded, iff it is within the name limit and the chunk and is no repeat |
| TokenRuns.NumberRun | src/tokenizer.rs:1114-1257 | a number token, ended by what follows or by the end of input, is told once with its meaning, iff it is within the length limit (not checked on its first byte) |
| TokenRuns.LiteralRun | src/tokenizer.rs:703-732 | a literal is told once, at the position after it |
| TokenRuns.RunReads | src/tokenizer.rs:807-880 | inside a string, the machine ends where reading all of it at once says, or not at all |
| Grammar.AfterText | src/tokenizer.rs:475-685 | the account of a tree is of exactly the tree's text |
| StringGrammar.ReadContent | src/tokenizer.rs:1454-1479 | well-formed content is read to its closing quote and gives the reference decoding: paired surrogates as one character, lone ones as U+FFFD |
| StringGrammar.ContentOf | src/tokenizer.rs:807-880 | only well-formed content is read to a closing quote; its text and its UTF-16 units are those of its raw bytes |
| StringGrammar.EscapeIsParsed | src/tokenizer.rs:1382-1412 | once its bytes are there, an escape is parsed to the grammar's code unit and length, and to none iff the grammar has none |
| StringGrammar.ShortIsRead | src/tokenizer.rs:1387-1397 | the tokenizer's two-byte escapes are those of the grammar's own table (section 7 of RFC 8259), with its code units, and no others |
| StringGrammar.HexIsRead | src/tokenizer.rs:1382-1412 | a byte is a hex digit, and of that value, for the tokenizer iff for the grammar |
| StringGrammar.PairIsCharacter | src/tokenizer.rs:1462-1471 | for every character beyond the basic plane, its two UTF-16 units in a row stand for it |
| StringGrammar.EscapedPair | tests/escapes_more.rs:60-65 | so do its twelve bytes as two escapes in a string, whatever the case of their digits |
| StringGrammar.PairIsResolved | src/tokenizer.rs:1462-1471 | and the tokenizer resolves them to it, using twelve bytes |
| StringGrammar.EscapedUnit | src/tokenizer.rs:1473-1478 | any other escaped unit stands for its own character, half a pair for EF BF BD |
| StringGrammar.KeyIsRead | src/tokenizer.rs:995-1023 | the raw scan for a key's end stops at the quote that ends its content, or is refused iff the content is over the limit |
| StringGrammar.KeyContent | src/tokenizer.rs:995-1023 | whatever the scan finds as a readable key is well-formed content in quotes |
| StringGrammar.DecodedIsUtf8 | src/tokenizer.rs:1454-1479 | the text of a string is valid UTF-8, whatever its escapes |
| Escapes.ResolveStable | src/tokenizer.rs:1454-1479 | an escape resolved or refused on some bytes stays so whatever follows |
| Escapes.PeekIsEnough | src/tokenizer.rs:1361-1375 | six copied bytes decide an escape as all of the input would |
| Escapes.WaitCanEnd | src/tokenizer.rs:1426-1479 | every escape that waits can be resolved to a character by more bytes (what those leave may be bad, see `DoomedIsRefused`) |
| Escapes.WaitIsHopeful | src/tokenizer.rs:1414-1448 | while an escape after a high surrogate is incomplete, a low one can still follow iff the digits so far allow it |
| Escapes.WaitWithoutHope | src/tokenizer.rs:1414-1448 | a concrete wait (`\u1` after a high surrogate) that outlasts that hope |
| Utf8.CharAtStable | src/tokenizer.rs:1325-1348 | a decision on a character stays whatever follows |
| Utf8.CharCanEnd | src/tokenizer.rs:1325-1348 | every character that is cut short can be completed |
| Utf8.CharacterIsEncoding | src/tokenizer.rs:1325-1348 | every byte string taken for a character is the encoding of its scalar value (section 3 of RFC 3629) |
| Utf8.EncodeIsCharacter | src/tokenizer.rs:857-880 | the encoding of a scalar value is one character, of that value |
| Utf8.EncodeTable | src/tokenizer.rs:857-880 | the bytes of an encoding are those of the table in section 3 of RFC 3629 |
| Utf8.ValidUpToIsLongest | src/tokenizer.rs:912-934 | the valid part of a slice is whole characters and cannot be made longer |
| Scanning.ScanPlain | src/tokenizer.rs:1307-1320 | the first byte in a range that is not plain content, across the wrap of the ring |
| Scanning.DecodeCharAt | src/tokenizer.rs:1325-1348 | the character at a position, across the wrap; waited for iff it is wide, cut short, and only continuation bytes are there after its first; else refused if it is none |
| Scanning.PeekEscape | src/tokenizer.rs:1361-1375 | up to six bytes from a position, copied across the wrap |
| Scanning.ResolveEscape | src/tokenizer.rs:1454-1479 | agrees with the escape's meaning on all of the input, wherever the ring wraps |
| Scanning.Utf16LenIsUnits | src/tokenizer.rs:1293-1301 | counting bytes gives the sum of the characters' UTF-16 units |
| Positions.LineCountsBreaks | src/tokenizer.rs:739-793 | the line is one more than the line breaks so far, CR, LF and CRLF one each |
| Positions.ColumnCountsUnits | src/tokenizer.rs:739-793 | the column is one more than the UTF-16 units since the last line break |
| Positions.PosOnLine | src/tokenizer.rs:1243-1257 | text without line breaks moves only the column, by its UTF-16 units |
| TokenRuns.SpaceRun | src/tokenizer.rs:739-793 | a whitespace byte takes the machine's position to the text's position, also where LF follows a CR read before |
| Chunks.UnitStable | src/tokenizer.rs:407-451 | what the machine does with the next unit does not depend on bytes still to come, and a wait that is repeated with more bytes is as if it had not been |
| Chunks.RunInPieces | src/tokenizer.rs:407-451 | a run over all bytes is a run over the front, then over what that left and the rest |
| Chunks.WaitIsShort | src/tokenizer.rs:407-451 | outside a key, at most 11 bytes wait |
| Chunks.RunStops | src/tokenizer.rs:416-450 | what a run leaves is a unit that is not all there |
| Passages.LeadsToSameRun | src/tokenizer.rs:416-450 | from a state that the tokenizer has come past, the machine goes on as it would have from the start |
| Passages.LeadsWithMore | src/tokenizer.rs:416-450 | where the tokenizer has come past does not change when more bytes arrive |
| Passages.LeadsKeeps | src/tokenizer.rs:416-450 | the invariant holds of every state come past, with the bytes before it, whatever becomes of the bytes after it |
| Documents.CheckBomStable | src/parser.rs:373-435 | a decision on the byte order mark stays whatever follows |
| Documents.MarkIsEncoded | src/parser.rs:384 | the mark is the encoding of U+FEFF, EF BB BF |
| Documents.MarksAreFound | src/parser.rs:373-435 | three bytes are skipped iff the document starts with that encoding; it is unsupported iff it starts with U+FEFF in UTF-16 or UTF-32; more is waited for only on the front of one of these |
| Documents.MarkIsSkipped | src/parser.rs:373-435 | a mark and a text are judged as the text would be, but for three bytes towards the limit on the document; a text without one as it stands |
| Documents.HopelessStays | src/parser.rs:197-233 | a document rejected early is rejected whatever follows |
| Documents.NoKeyFillsRing | src/parser.rs:213-229 | where each key shows its end, or is refused, within the ring's capacity (of at least 12), a full ring can always be worked on |
| Documents.LimitedKeysFit | src/parser.rs:41-49 | under a limit on names, every document's keys fit a ring four bytes larger than the limit, or are seen in it to be too long |
| Documents.UnsupportedStart | src/parser.rs:391-431 | a UTF-16 or UTF-32 mark is refused by the grammar too |
| Documents.LeftOverIsRejected | src/parser.rs:297-303 | bytes that still wait when the input ends make the document bad |
| Parsers.Parser.Close | src/parser.rs:281-322 | accepts iff the whole document given at once would be accepted, and then the joined events are the same and each piece is whole characters within the chunk |
| Parsers.Parser.Parse | src/parser.rs:346-367 | for every sequence of read sizes and every place where the ring wraps: accepted only if the whole would be and each key shows its end within the ring, with the same events; rejected only if the whole would be; the ring is too small only if it is under 12 bytes or a key does not end within it, so never if it is four bytes larger than a limit on names (and not under 12); and the key table is left fit for the next document |
| Parsers.Parser.Receive | src/parser.rs:190-233 | keeps the run in step with the document so far; reports a ring too small only if it is full, and else leaves room in it |
| Parsers.Parser.Feed | src/parser.rs:197-233 | what is taken and left, and that a rejection is final |
| Parsers.Parser.Process | src/parser.rs:235-270 | settles the byte order mark once and hands over exactly the rest |
| Parsers.Parser.Finalize | src/parser.rs:297-321 | the last checks agree with the verdict |
| Parsers.Parser.Reset | src/parser.rs:324-337 | ready for a new document, with the key table as it was; allowed after any call, whatever came of it, since each leaves the table valid |
| Parsers.Parser.StateIsCoherent | src/tokenizer.rs:301-336 | between any two calls: both stacks agree, one set of names per open object, the grammar state fits the stack, the number in progress is as narrow as its length, and the events delivered are the front of a well-formed stream |
| Parsers.Parser.ToldIsTheText | src/tokenizer.rs:416-450 | between tokens, in any document, also one that is rejected later: what the handler has been told, positions included, is what there is to tell of the text taken so far, and the locator stands at its end |
| Histories.ToldBetween | src/tokenizer.rs:416-450 | every state between tokens that a document leads to is the state of a front of some document with the bytes taken as its text |
| Histories.LeadsToEnd | src/tokenizer.rs:416-450 | the bytes taken alone would have led to the same state: nothing seen beyond them has mattered |
| Parsers.Parser.IsUnderflow | src/parser.rs:170-173 | true iff the last call left bytes in the ring |
| Parsers.Parser.RingNeverTooSmall | src/parser.rs:213-229 | where each key shows its end within a ring of at least 12 bytes, what waits never fills it, so the ring is never reported too small (see `ShortKeysFit` and `LimitedKeysFit`) |
| Tokenizers.Tokenizer.Receive | src/tokenizer.rs:407-451 | ends, and takes the machine as far as the bytes present allow: what is left is a unit that cannot be finished |
| Tokenizers.Tokenizer.ProcessToken | src/tokenizer.rs:475-685 | one token as the machine reads it, all or nothing of it consumed |
| Tokenizers.Tokenizer.ContinueString | src/tokenizer.rs:807-880 | a string, as much of it as is there, as the machine reads it; nothing decoded is held back when it returns |
| Tokenizers.Tokenizer.DecodeRun | src/tokenizer.rs:892-949 | decodes a plain run in pieces that fit the buffer, never past its end, stopping short only at a cut character |
| Tokenizers.Tokenizer.DecodeHere | src/tokenizer.rs:912-946 | decodes one slice; a character at its end is put off iff the slice shows only its front and the data has nothing but too few continuation bytes after its first |
| Tokenizers.RoomDecides | src/tokenizer.rs:904-946 | fifteen letters and a malformed character at the end of the data: put off with a chunk of 16, not with one of 32 |
| Tokenizers.Tokenizer.DecodeSome | src/tokenizer.rs:910-946 | each step takes something, or tells why not |
| Tokenizers.Tokenizer.FlushChars | src/tokenizer.rs:966-975 | hands over what is decoded without changing what has been told in all |
| Tokenizers.Tokenizer.TakeEscape | src/tokenizer.rs:850-880 | one escape of a string, as the machine reads it |
| Tokenizers.Tokenizer.ProcessKey | src/tokenizer.rs:981-1063 | a key, whatever the table holds and wherever the ring wraps, as the machine reads it |
| Tokenizers.Tokenizer.FindKey | src/tokenizer.rs:1025-1063 | the key found through the table is the one that decoding gives; one with an escape is left in the buffer |
| Tokenizers.Tokenizer.DecodeKey | src/tokenizer.rs:1077-1108 | a key's content is decoded iff it is readable and its text fits the chunk |
| Tokenizers.Tokenizer.ReportKey | src/tokenizer.rs:1270-1288 | refuses a repeat, else moves past the key and tells it |
| Tokenizers.Tokenizer.ContinueNumber | src/tokenizer.rs:1114-1240 | a number, as much of it as is there, as the machine reads it a byte at a time |
| Tokenizers.Tokenizer.EmitNumber | src/tokenizer.rs:1243-1257 | tells the number and moves past it |
| Tokenizers.Tokenizer.ProcessWhitespace | src/tokenizer.rs:739-793 | a run of whitespace, as much of it as is there, as the machine reads it a byte at a time |
| Tokenizers.Tokenizer.ReportWhitespace | src/tokenizer.rs:783-792 | the pieces told join to the run |
| Tokenizers.Tokenizer.ProcessLiteral | src/tokenizer.rs:703-732 | a literal is refused at the first wrong byte present, and else waited for |
| Tokenizers.Tokenizer.ProcessOpen | src/tokenizer.rs:560-579 | an opening bracket, with both stacks and the stack of names |
| Tokenizers.Tokenizer.ProcessClose | src/tokenizer.rs:581-641 | a closing bracket, with both stacks and the stack of names |
| Tokenizers.Tokenizer.EndOfInput | src/tokenizer.rs:384-402 | completes a number iff it may end there |
| Invariants.RunKeeps | src/tokenizer.rs:485-685 | in every state reached: one set of names per open object, keys and colons due only in objects, a string or number only where a value is due, the comma flag iff the last token was a comma, and events that follow on |
| Invariants.ToldIsPrefix | src/tokenizer.rs:407-451 | the events told so far, in any reachable state, are the front of a whole well-formed stream |
| Invariants.CloseNeedsNoState | src/parser.rs:305-321 | a token seen, nothing open and nothing pending force the state after a value |
| Invariants.StreamCompletes | src/handler.rs:7-31 | a stream that has followed the rules so far can be completed |
| Numbers.NumberState.TakeDigitRun | src/tokenizer.rs:145-163 | a run of digits taken at once leaves the state that taking them one by one would |
| Numbers.NumberState.AddDigit | src/tokenizer.rs:170-197 | one digit, as the accumulators define it |
| Numbers.NumberState.Begin | src/tokenizer.rs:118-138 | the state after a first byte, whatever was left from before |
| Numbers.DigitFits | src/tokenizer.rs:69-71 | below the threshold a further digit cannot overflow, so the fast path does what the general one would |
| NumberLaws.KeptIsLongest | src/tokenizer.rs:170-197 | the digits kept are the longest front that fits an i64 |
| NumberLaws.Truncation | src/tokenizer.rs:165-197 | mantissa * 10^k <= N < (mantissa + 1) * 10^k; equal at the left iff no non-zero digit was dropped; N below the middle iff the first dropped digit is below 5 |
| NumberLaws.BigIsWhole | src/tokenizer.rs:170-197 | once an integer overflows, the digits kept are exactly the token's |
| NumberLaws.ReadToken | src/tokenizer.rs:1114-1240 | every number of the grammar (section 6 of RFC 8259) is read to an end, with its meaning: the exact integer in the narrowest variant, or sign, mantissa, power of ten and what was dropped |
| NumberLaws.TokenOf | src/tokenizer.rs:1114-1240 | whatever is read to an end is a number of the grammar |
| NumberLaws.MeaningFound | src/tokenizer.rs:205-250 | the value reported from the accumulators is the token's meaning |
| NumberValues.RealIsMagnitude | src/tokenizer.rs:225-250 | with a written exponent below 100000 either way, a number's true magnitude as a real number lies in the unit interval of the last kept digit that mantissa and power give: at its lower end iff reported exact, below its middle iff the first dropped digit is below 5 |
| NumberValues.IntegerIsExact | src/tokenizer.rs:205-223 | an integer is reported as itself, as `I32` iff it fits one, and by its own text iff it needs more than 63 bits without its sign |
| NumberValues.DigitsAre | src/tokenizer.rs:145-153 | the digits are the bytes 0x30 to 0x39 |
| NumberValues.EitherMark | src/tokenizer.rs:1163-1200 | e and E in its place give a number the same meaning |
| NumberLaws.SaturationIsLate | src/tokenizer.rs:199-203 | the exponent read fits an i32, and is exact unless both it and the true one are at least 100000 |
| NumberLaws.RangeIsExact | src/tokenizer.rs:231-240 | the power of ten of every number of at most L bytes fits an i32 iff L is at most 2146483659 |
| NumberLaws.LongFractionPower | src/tokenizer.rs:154-160 | a shortest number beyond that, of 2146483660 bytes: `0.`, zeros and `e-999999` |
| NumberLaws.ReadStaysInRange | src/tokenizer.rs:145-203 | reading a number of up to 2146483659 bytes overflows no 32-bit accumulator on the way |
| NumberRange.LimitIsExact | src/tokenizer.rs:1114-1240 | no text within the limit on documents makes the shift, the exponent or the power of ten overflow 32 bits iff the limit on numbers, documents or tokens refuses a number of 2146483660 bytes |
| NumberLaws.SaturationIsHarmless | src/tokenizer.rs:231-240 | in a token of at most 1000 bytes the power of ten is the true one, or both are beyond 99000 on the same side |
| NumberLaws.ValueOfDecimal | src/tokenizer.rs:184-190 | the decimal form of an integer has no leading zero and stands for it |
| NumberLaws.DecimalOfValue | src/tokenizer.rs:184-190 | digits without a leading zero are the decimal form of their value |
| NumberRuns.RunDigits | src/tokenizer.rs:1127-1142 | the machine over a run of digits, all at once |
| Keys.KeySymbolTable.Lookup | src/keys.rs:54-72 | the value stored for exactly these bytes, or none if there is none, for any hash function |
| Keys.KeySymbolTable.Put | src/keys.rs:74-90 | adds exactly this entry, or nothing once the table is full |
| Keys.KeySymbolTable.Grow | src/keys.rs:92-110 | doubles the capacity and keeps the map |
| Keys.KeySymbolTable.Probe | src/keys.rs:82-85 | ends at a free slot that the key's home reaches without a gap |
| Keys.AbsentPast | src/keys.rs:54-72 | a key not met between its home and a gap is not in the table |
| Keys.MaskIsRemainder | src/keys.rs:54-72 | for a capacity that is a power of two, masking a hash or a successor is taking the remainder |
| Keys.PutKeepsReachable | src/keys.rs:82-89 | filling the first free slot keeps every entry reachable |
| Keys.ContentsPut | src/keys.rs:86-89 | filling a slot adds exactly that entry to the map |
| Writers.Writer.WriteKey | src/writer.rs:238-249 | puts separator, indentation, quoted name and colon and moves on, or changes nothing; `InvalidInput` iff that is more than the ring's whole capacity |
| Writers.Writer.WriteString | src/writer.rs:251-261 | the same for a string |
| Writers.Writer.WriteOpen | src/writer.rs:433-444 | the same for an opening bracket |
| Writers.Writer.WriteClose | src/writer.rs:446-461 | the same for a closing bracket, on its own line if indenting |
| Writers.Writer.WriteVerbatim | src/writer.rs:351-361 | the same for a number's or a literal's text |
| Writers.Writer.WriteI64 | src/writer.rs:367-392 | the same for the canonical decimal form of an integer |
| Writers.Writer.WriteNumber | src/writer.rs:337-345 | an integer of either width in decimal, a big one as its own digits, a double as it prints; a double that is not finite is refused with nothing changed |
| Writers.Writer.WriteF64 | src/writer.rs:394-411 | a double as it prints, or `InvalidInput` and nothing changed, with room or without, if it is not finite |
| Writers.Writer.WriteStartString | src/writer.rs:269-279 | the same for an opening quote, the writer's state left as it was |
| Writers.Writer.WriteEndString | src/writer.rs:324-329 | the same for a closing quote |
| Writers.Writer.WriteStringContent | src/writer.rs:285-321 | takes the longest front of whole characters whose escaped form fits; taking nothing of something is an error, `InvalidInput` iff the ring cannot hold six bytes |
| Writers.Writer.HowMuchFits | src/writer.rs:289-313 | that longest front, without looking past the room there is |
| Writers.Writer.Digits | src/writer.rs:367-391 | for every i64, the minimum too, the digits fit 20 bytes and are the canonical decimal form |
| Writers.PairOff | src/writer.rs:374-385 | two digits at a time from the table are the digits that division by ten gives |
| Writers.Writer.PrefixLenIsLead | src/writer.rs:465-500 | the length worked out beforehand is that of the separator and indentation put |
| Writers.Writer.PutPrefix | src/writer.rs:503-514 | puts exactly the separator and indentation that the writer's place calls for |
| Writers.Writer.Emit | src/writer.rs:137-151 | a token reaches the ring whole, through the 64-byte scratch, which never overflows, or directly |
| Writers.Writer.Encode | src/writer.rs:238-461 | what is put is the call's output, byte for byte |
| Writers.PutEscaped | src/writer.rs:591-616 | puts every byte escaped as it must be, plain runs whole |
| Writers.PutRepeated | src/writer.rs:549-558 | puts a byte that many times |
| Writers.EnsureRoom | src/writer.rs:527-546 | room now, room after draining, or never |
| Escaping.EscapedLenIsLength | src/writer.rs:562-571 | the length worked out is that of the escaped text |
| Escaping.EscapedCharLenIsLength | src/writer.rs:573-580 | the same for one character, and it is at most six |
| Escaping.EscapeTable | src/writer.rs:591-624 | which bytes are escaped, and how, byte by byte |
| Layouts.PiecesAreWhole | src/writer.rs:263-329 | a string written in any number of pieces is the string written at once |
| Layouts.PiecesOutput | src/writer.rs:281-321 | content written in any number of pieces is the content written at once |
| Layouts.UnboundedConcat | src/writer.rs:222-461 | the output of calls is that of the first ones, then of the others from where those leave the writer |
| Backpressure.WriteAll | src/writer.rs:153-165 | any calls, any ring where each token fits, any draining: what was drained and what the ring holds are the output into a ring without end |
| Backpressure.WriteContent | src/writer.rs:281-321 | repeating with the rest writes all of a piece of content |
| Backpressure.WriteToken | src/writer.rs:153-165 | repeating a call after draining writes its token once |
| EndToEnd.WriteAndParse | src/writer.rs:153-181 | data written through one ring, drained anyhow, and parsed through another, cut anyhow, is told as it was if the parser's settings, limits included, allow the data, and refused if not; with 12 bytes or more, the parser's ring is not too small if every escaped name with its quotes fits it, and is too small for data that is allowed if one does not |
| EndToEnd.ParseInTurn | src/parser.rs:324-367 | documents parsed one after another with one parser, its key table warm, each come to what they would have come to alone |
| RoundTrip.WrittenIsReadBack | src/writer.rs:433-515 | data written with any indentation is accepted by a parser, under any limits, iff they allow the data (its depth, tokens, names, strings, numbers and length), and then told as it was |
| RoundTrip.UnlimitedIsReadBack | src/limits.rs:38-49 | with no limits, it is accepted iff its names fit the chunk and, if that is asked for, are distinct in each object |
| RoundTrip.IntegerComesBack | src/tokenizer.rs:205-223 | an integer's decimal form reads back as that integer, in the parser's normal variant: `i64::MIN` comes back as a big integer |
| RoundTrip.OnlyTheLeastIsBig | src/tokenizer.rs:170-190 | an integer that fits an i64 is reported as a big integer iff it is `i64::MIN` |
| RoundTrip.Tells | src/tokenizer.rs:475-685 | what is told of the written tree is what the data stands for, indentation or not |
| RoundTrip.WrittenFits | src/limits.rs:5-24 | the written tree keeps a parser's limits at any depth, and its conditions on names, exactly if the data does |
| RoundTrip.CountsTokens | src/tokenizer.rs:453-470 | the written tree counts as many tokens as the data has |
| RoundTrip.WrittenFitsRing | src/parser.rs:41-49 | each key of what is written shows its end in a ring if every escaped name with its quotes fits it, and, if what is written is accepted, only then |
| WrittenTrees.WritesTree | src/writer.rs:433-515 | the writer's output for some data is the text of a JSON tree |
| WrittenTrees.EscapedDecodes | src/writer.rs:591-616 | escaped text is well-formed content whose decoding is the text |
| Layouts.NewLineShape | src/writer.rs:511-513 | a line feed, and then count times depth units; nothing without indentation |
| Pretty.IndentedIsLaidOut | src/writer.rs:433-515 | with indentation, any data is written as its compact text laid out: after each opening bracket and comma and before each closing bracket a line feed and count units for each bracket open there, and a space after each colon, strings untouched |
| Pretty.LayoutAddsBlanks | src/writer.rs:465-515 | laying any text out adds nothing but whitespace outside its strings |
| Pretty.SameWithoutBlanks | src/writer.rs:465-515 | without its whitespace outside strings, output with any indentation is the output without |
| Examples.OneElementIndented | src/writer.rs:446-461 | `[1]` indented by two spaces, byte by byte |
| Examples.GrinningFace | tests/escapes_more.rs:62 | `\uD83D\uDE00` is read as the four bytes of U+1F600 |
| Examples.EscapedSlash | src/tokenizer.rs:1390 | `\/` is read as a slash |
| Examples.DocumentTold | src/tokenizer.rs:475-685 | a document of three lines after a mark, with 1E5: every event with its line and column |
| Examples.StringTold | src/tokenizer.rs:807-880 | a string of one two-byte character, with its positions |
| Examples.WhitespaceTold | src/tokenizer.rs:739-793 | an empty array among whitespace, for a handler that asks for it |

## Left out

- Conversion to and from `f64` (`decimal_to_f64`, `write_f64`): a real number stops at sign, mantissa, power of ten, whether digits were dropped and the first of them.
- Writers.Writer.WriteNumber: a double is given by how it prints (nothing, if it is not finite), because printing one is floating-point formatting; so is the choice between the 64-byte scratch text and an allocated one.
- NumberLaws.ReadToken: does not model 32-bit wrap-around of the shift and the power of ten, which takes a number of more than 2,146,483,659 bytes and no limit that refuses it.
- Acceptance.AcceptsJson: the same, for a number that long in the document.
- Numbers.NumberState.TakeDigitRun: the same, for the run length that is cast to 32 bits.
- Numbers.NumberState.AddDigit: the same, for the shift.
- Completions.ReachedCanBeCompleted: not stated where repeated keys are refused, as after a comma every name that still fits the chunk may have been used up; nor under limits, which a completion may break; nor inside a key, whose raw text is not looked at before its end.
- `LoopBuf`'s own code: the ring is a bounded queue of bytes whose content is seen as two spans; `loopbuf` is not part of this model.
- I/O: the reader that `Parser::parse` is given is a byte string handed over in reads of any positive size that fit the ring; an error from it is not modelled.
- Errors returned by handlers, calls other than a reset after an error, and changes of limits, flags or chunk size, in mid-document or between documents.
- Wording of error messages: a parse error is one failure value, and a writer's is `WouldBlock` or `InvalidInput`.
- For a rejected document only the verdict is claimed to be independent of chunking, not the events delivered before it.
- Parsers.Parser.Reset: the handler's log is started afresh with it, so that a log is always one document's.
- Overflow of `usize` in lengths, columns and `indent_count * depth`, and of the 64-bit token and document counters: these are unbounded here.
- Timing, memory use and allocation; the table's slots are sequences replaced slot by slot.
- The `ContentHandler` forwarding macros, `Rc`/`Cell` plumbing, accessors, constructors of `IndentConfig` and `Display` for numbers.
