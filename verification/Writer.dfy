// The writer: it puts whole tokens into a ring that may have no room for them.
module Writers {
  import opened Base
  import opened Rings
  import opened Escaping
  import opened Layouts
  import Numbers
  import Utf8

  const SCRATCH := 64

  /** A small buffer that a token is put together in. */
  class Scratch {
    const bytes: array<Byte>
    var len: nat

    ghost predicate Valid()
      reads this
    {
      bytes.Length == SCRATCH && len <= SCRATCH
    }

    constructor ()
      ensures Valid() && len == 0 && fresh(bytes)
    {
      bytes := new Byte[SCRATCH](_ => 0);
      len := 0;
    }

    function AsSlice(): Bytes
      requires Valid()
      reads this, bytes
    {
      bytes[..len]
    }

    method Put(s: Bytes)
      requires Valid() && len + |s| <= SCRATCH
      modifies this, bytes
      ensures Valid() && AsSlice() == old(AsSlice()) + s
    {
      forall i | 0 <= i < |s| {
        bytes[len + i] := s[i];
      }
      len := len + |s|;
    }
  }

  /** A destination for encoded bytes. */
  datatype Out = ToScratch(scratch: Scratch) | ToRing(ring: LoopBuf) {
    function Footprint(): set<object> {
      match this
      case ToScratch(s) => {s, s.bytes}
      case ToRing(r) => {r}
    }

    ghost predicate Valid()
      reads Footprint()
    {
      match this
      case ToScratch(s) => s.Valid()
      case ToRing(r) => r.Valid()
    }

    ghost function Written(): Bytes
      requires Valid()
      reads Footprint()
    {
      match this
      case ToScratch(s) => s.AsSlice()
      case ToRing(r) => r.content
    }

    ghost function Room(): int
      reads Footprint()
    {
      match this
      case ToScratch(s) => SCRATCH - s.len
      case ToRing(r) => r.capacity - |r.content|
    }
  }

  method Put(out: Out, s: Bytes)
    requires out.Valid() && |s| <= out.Room()
    modifies out.Footprint()
    ensures out.Valid() && out.Written() == old(out.Written()) + s && out.Room() == old(out.Room()) - |s|
  {
    match out
    case ToScratch(scratch) => scratch.Put(s);
    case ToRing(ring) => ring.Append(s);
  }

  /** Puts `b` `count` times, a run at a time. */
  method PutRepeated(out: Out, b: Byte, count: nat)
    requires out.Valid() && count <= out.Room()
    modifies out.Footprint()
    ensures out.Valid() && out.Written() == old(out.Written()) + Repeated(b, count) && out.Room() == old(out.Room()) - count
  {
    var run := Repeated(b, 64);
    var left := count;
    assert out.Written() == old(out.Written()) + Repeated(b, 0);
    while left > 0
      invariant 0 <= left <= count && out.Valid() && out.Room() == old(out.Room()) - (count - left)
      invariant out.Written() == old(out.Written()) + Repeated(b, count - left)
    {
      var n := Min(left, 64);
      RepeatedMore(b, count - left, n, run[..n]);
      Assoc(old(out.Written()), Repeated(b, count - left), run[..n]);
      Put(out, run[..n]);
      left := left - n;
    }
  }

  lemma RepeatedMore(b: Byte, m: nat, n: nat, run: Bytes)
    requires |run| == n && forall i :: 0 <= i < n ==> run[i] == b
    ensures Repeated(b, m) + run == Repeated(b, m + n)
  {
  }

  /** Puts `s` escaped, copying runs of plain bytes whole. */
  method PutEscaped(out: Out, s: Bytes)
    requires out.Valid() && |Escaped(s)| <= out.Room()
    modifies out.Footprint()
    ensures out.Valid() && out.Written() == old(out.Written()) + Escaped(s) && out.Room() == old(out.Room()) - |Escaped(s)|
  {
    hide Escaped, EscapeByte;
    var start := 0;
    ghost var before, room := out.Written(), out.Room();
    NothingEscaped(s, before);
    for i := 0 to |s|
      invariant start <= i && AllPlain(s[start..i]) && out.Valid()
      invariant out.Written() == before + Escaped(s[..start]) && out.Room() == room - |Escaped(s[..start])|
    {
      if IsPlain(s[i]) {
        PlainMore(s, start, i);
      } else {
        EscapedNext(s, i);
        EscapedFits(s, i + 1);
        PutRun(out, s, start, i, before, room);
        Put(out, EscapeByte(s[i]));
        Assoc(before, Escaped(s[..i]), EscapeByte(s[i]));
        start := i + 1;
      }
    }
    assert s[..|s|] == s;
    PutRun(out, s, start, |s|, before, room);
  }

  /** Puts the plain bytes `[start, i)`, if there are any. */
  method PutRun(out: Out, s: Bytes, start: nat, i: nat, ghost before: Bytes, ghost room: nat)
    requires out.Valid() && start <= i <= |s| && AllPlain(s[start..i]) && |Escaped(s[..i])| <= room
    requires out.Written() == before + Escaped(s[..start]) && out.Room() == room - |Escaped(s[..start])|
    modifies out.Footprint()
    ensures out.Valid() && out.Written() == before + Escaped(s[..i]) && out.Room() == room - |Escaped(s[..i])|
  {
    hide Escaped;
    EscapedRun(s, start, i);
    if start < i {
      Put(out, s[start..i]);
      Assoc(before, Escaped(s[..start]), s[start..i]);
    } else {
      assert Escaped(s[..start]) + s[start..i] == Escaped(s[..start]);
    }
  }

  lemma NothingEscaped(s: Bytes, before: Bytes)
    ensures s[..0] == [] && Escaped(s[..0]) == [] && before + Escaped(s[..0]) == before && AllPlain(s[0..0])
  {
  }

  lemma EscapedRun(s: Bytes, start: nat, i: nat)
    requires start <= i <= |s| && AllPlain(s[start..i])
    ensures Escaped(s[..i]) == Escaped(s[..start]) + s[start..i]
  {
    assert s[..i] == s[..start] + s[start..i];
    EscapedConcat(s[..start], s[start..i]);
    EscapedPlain(s[start..i]);
  }

  lemma EscapedNext(s: Bytes, i: nat)
    requires i < |s|
    ensures Escaped(s[..i + 1]) == Escaped(s[..i]) + EscapeByte(s[i])
  {
    assert s[..i + 1] == s[..i] + [s[i]];
    EscapedConcat(s[..i], [s[i]]);
    assert [s[i]][1..] == [];
    assert Escaped([s[i]]) == EscapeByte(s[i]) + Escaped([]);
  }

  lemma EscapedFits(s: Bytes, i: nat)
    requires i <= |s|
    ensures |Escaped(s[..i])| <= |Escaped(s)|
  {
    assert s == s[..i] + s[i..];
    EscapedConcat(s[..i], s[i..]);
  }

  datatype Error = WouldBlock | InvalidInput

  /** Room for `need` bytes: now, after draining, or never. */
  function EnsureRoom(buf: LoopBuf, need: nat): (r: Option<Error>)
    requires buf.Valid()
    reads buf
    ensures r.None? <==> need <= buf.SpareLen()
    ensures r == Some(InvalidInput) <==> need > buf.capacity
  {
    if need <= buf.SpareLen() then None
    else if need > buf.capacity then Some(InvalidInput)
    else Some(WouldBlock)
  }

  /** A call either puts all of its output, or changes nothing. */
  ghost predicate Atomic(call: Call, capacity: nat, place: Place, content: Bytes, r: Option<Error>, newPlace: Place, newContent: Bytes) {
    var output := Output(place, call);
    if |content| + |output| <= capacity then
      r.None? && newPlace == Next(place, call) && newContent == content + output
    else
      r == Some(if |output| > capacity then InvalidInput else WouldBlock) && newPlace == place && newContent == content
  }

  /** The parts of a separator with its indentation. */
  datatype Prefix = Prefix(comma: bool, space: bool, newlineDepth: Option<nat>)

  type Int64 = v: int | -0x8000_0000_0000_0000 <= v <= 0x7FFF_FFFF_FFFF_FFFF

  /** The decimal form of an integer. */
  function Decimal(v: int): Bytes {
    if v < 0 then [MINUS] + Numbers.Decimal(-v) else Numbers.Decimal(v)
  }

  type Int32 = v: int | -0x8000_0000 <= v <= 0x7FFF_FFFF

  /** A number to write. How a double prints is the standard library's affair;
      one that is not finite does not. */
  datatype Value = I32(i32: Int32) | I64(i64: Int64) | F64(printed: Option<Bytes>) | BigInt(digits: Bytes)

  function NumberText(value: Value): Option<Bytes> {
    match value
    case I32(v) => Some(Decimal(v))
    case I64(v) => Some(Decimal(v))
    case F64(printed) => printed
    case BigInt(digits) => Some(digits)
  }

  /** A number is put whole, or nothing changes; one without a text is refused
      however much room there is. */
  ghost predicate Numeric(value: Value, capacity: nat, place: Place, content: Bytes, r: Option<Error>, newPlace: Place, newContent: Bytes) {
    match NumberText(value)
    case Some(text) => Atomic(Verbatim(text), capacity, place, content, r, newPlace, newContent)
    case None => r == Some(InvalidInput) && newPlace == place && newContent == content
  }

  /** The digits of 0 to 99, two each. */
  const PAIRS: Bytes := seq(200, i requires 0 <= i < 200 => (if i % 2 == 0 then ZERO + i / 20 else ZERO + i / 2 % 10) as Byte)

  /** Looking a pair up in the table is dividing by ten twice. */
  lemma PairOff(n: nat)
    ensures n >= 100 ==> Numbers.Decimal(n) == Numbers.Decimal(n / 100) + PAIRS[n % 100 * 2..n % 100 * 2 + 2]
    ensures 10 <= n < 100 ==> Numbers.Decimal(n) == PAIRS[n * 2..n * 2 + 2]
  {
    var k := n % 100;
    PairAt(k);
    if n >= 100 {
      assert n / 10 / 10 == n / 100 && n / 10 % 10 == k / 10 && n % 10 == k % 10;
      assert Numbers.Decimal(n / 10) == Numbers.Decimal(n / 100) + [ZERO + k / 10];
    }
  }

  lemma PairAt(k: nat)
    requires k < 100
    ensures PAIRS[k * 2..k * 2 + 2] == [ZERO + k / 10] + [ZERO + k % 10]
  {
    assert k * 2 / 20 == k / 10 && (k * 2 + 1) / 2 == k;
  }

  lemma {:induction false} DecimalShort(n: nat, k: nat)
    requires k > 0 && n < Numbers.Power10(k)
    ensures |Numbers.Decimal(n)| <= k
  {
    if n >= 10 {
      DecimalShort(n / 10, k - 1);
    }
  }

  lemma {:induction false} Power10Sum(a: nat, b: nat)
    ensures Numbers.Power10(a + b) == Numbers.Power10(a) * Numbers.Power10(b)
  {
    if a > 0 {
      Power10Sum(a - 1, b);
    }
  }

  lemma Int64Short(n: nat)
    requires n <= 0x8000_0000_0000_0000
    ensures |Numbers.Decimal(n)| <= 19
  {
    assert Numbers.Power10(3) == 1000 by {
      assert Numbers.Power10(2) == 10 * Numbers.Power10(1);
    }
    Power10Sum(3, 3);
    Power10Sum(6, 6);
    Power10Sum(12, 6);
    assert Numbers.Power10(19) == 10 * Numbers.Power10(18);
    DecimalShort(n, 19);
  }

  /** Whether the first `i` bytes of `text` can be put, escaped. */
  predicate FitsEscaped(text: Bytes, i: nat, room: nat)
    requires i <= |text|
  {
    IsBoundary(text, i) && |Escaped(text[..i])| <= room
  }

  /** No longer front of `text`, cut between characters, fits. */
  predicate Longest(text: Bytes, i: nat, room: nat) {
    i <= |text| && FitsEscaped(text, i, room) && forall j :: i < j <= |text| ==> !FitsEscaped(text, j, room)
  }

  lemma EscapedGrows(s: Bytes, i: nat, j: nat)
    requires i <= j <= |s|
    ensures |Escaped(s[..i])| <= |Escaped(s[..j])|
  {
    assert s[..j] == s[..i] + s[i..j];
    EscapedConcat(s[..i], s[i..j]);
  }

  lemma NextCharacter(text: Bytes, i: nat, n: nat)
    requires Utf8.ValidUtf8(text) && i < |text| && IsBoundary(text, i) && Utf8.ValidUtf8(text[i..]) && n == Utf8.CharAt(text[i..]).n
    ensures i + n <= |text| && IsBoundary(text, i + n)
    ensures |Escaped(text[..i + n])| == |Escaped(text[..i])| + EscapedCharLen(text[i..i + n])
    ensures EscapedCharLen(text[i..i + n]) <= 6
    ensures forall j :: i < j <= |text| && IsBoundary(text, j) ==> i + n <= j
  {
    var rest := text[i..];
    assert rest[..n] == text[i..i + n];
    assert text[..i + n] == text[..i] + text[i..i + n];
    if i + n < |text| {
      assert Utf8.CharAt(rest[n..]).Len?;
      assert rest[n..][0] == text[i + n];
      StartsCharacter(rest[n..]);
    }
    forall j | i < j <= |text| && IsBoundary(text, j) ensures i + n <= j {
      NextBoundary(text, i, j);
    }
    Utf8.CharAtPrefix(rest, n);
    EscapedConcat(text[..i], text[i..i + n]);
    EscapedCharLenIsLength(text[i..i + n]);
  }

  lemma StartsCharacter(s: Bytes)
    requires s != [] && Utf8.CharAt(s).Len?
    ensures !Utf8.IsContinuation(s[0])
  {
  }

  class Writer {
    const indent: Option<IndentConfig>
    var state: State
    var depth: nat

    ghost function Place(): Place
      reads this
    {
      Layouts.Place(indent, state, depth)
    }

    constructor (indent: Option<IndentConfig>)
      ensures Place() == Layouts.Place(indent, Init0, 0)
    {
      this.indent, state, depth := indent, Init0, 0;
    }

    method Reset()
      modifies this
      ensures Place() == Layouts.Place(indent, Init0, 0)
    {
      state, depth := Init0, 0;
    }

    // ---------- The prefix ----------

    function GetPrefix(): Prefix
      reads this
    {
      var none := Prefix(false, false, None);
      if indent.None? then
        if state == AfterValue then none.(comma := true) else none
      else
        match state
        case AfterKey => none.(space := true)
        case AfterValue => none.(comma := true, newlineDepth := Some(depth))
        case Init => none.(newlineDepth := Some(depth))
        case Init0 => none
    }

    function PrefixLen(prefix: Prefix): nat {
      (if prefix.comma then 1 else 0) + (if prefix.space then 1 else 0)
      + match prefix.newlineDepth
        case None => 0
        case Some(d) => 1 + (if indent.Some? then indent.value.count else 0) * d
    }

    /** The length worked out beforehand is that of what is put. */
    lemma PrefixLenIsLead()
      ensures PrefixLen(GetPrefix()) == |Lead(Place())|
    {
    }

    method PutNewLine(out: Out, level: nat)
      requires out.Valid() && |NewLine(indent, level)| <= out.Room()
      modifies out.Footprint()
      ensures out.Valid() && out.Written() == old(out.Written()) + NewLine(indent, level)
      ensures out.Room() == old(out.Room()) - |NewLine(indent, level)|
    {
      if indent.Some? {
        Put(out, [LF]);
        PutRepeated(out, indent.value.unit, indent.value.count * level);
        Assoc(old(out.Written()), [LF], Repeated(indent.value.unit, indent.value.count * level));
      } else {
        assert out.Written() + NewLine(indent, level) == out.Written();
      }
    }

    method PutIf(out: Out, wanted: bool, b: Byte)
      requires out.Valid() && (wanted ==> 1 <= out.Room())
      modifies out.Footprint()
      ensures out.Valid() && out.Written() == old(out.Written()) + (if wanted then [b] else [])
      ensures out.Room() == old(out.Room()) - if wanted then 1 else 0
    {
      if wanted {
        Put(out, [b]);
      } else {
        assert out.Written() + [] == out.Written();
      }
    }

    lemma LeadParts(before: Bytes)
      ensures var prefix := GetPrefix();
              var put := (before + if prefix.comma then [COMMA] else []) + if prefix.space then [SPACE] else [];
              before + Lead(Place()) == if prefix.newlineDepth.Some? && indent.Some? then put + NewLine(indent, prefix.newlineDepth.value) else put
      ensures var prefix := GetPrefix();
              |Lead(Place())| == (if prefix.comma then 1 else 0) + (if prefix.space then 1 else 0)
                                 + if prefix.newlineDepth.Some? && indent.Some? then |NewLine(indent, prefix.newlineDepth.value)| else 0
    {
    }

    method PutPrefix(out: Out, prefix: Prefix)
      requires out.Valid() && prefix == GetPrefix() && |Lead(Place())| <= out.Room()
      modifies out.Footprint()
      ensures out.Valid() && out.Written() == old(out.Written()) + Lead(Place()) && out.Room() == old(out.Room()) - |Lead(Place())|
    {
      hide NewLine, Lead;
      LeadParts(out.Written());
      PutIf(out, prefix.comma, COMMA);
      PutIf(out, prefix.space, SPACE);
      if prefix.newlineDepth.Some? && indent.Some? {
        PutNewLine(out, prefix.newlineDepth.value);
      }
    }

    lemma QuotedParts(before: Bytes, inner: Bytes)
      ensures before + [QUOTE] + inner + [QUOTE] == before + ([QUOTE] + inner + [QUOTE])
    {
    }

    method PutQuoted(out: Out, s: Bytes)
      requires out.Valid() && |Quoted(s)| <= out.Room()
      modifies out.Footprint()
      ensures out.Valid() && out.Written() == old(out.Written()) + Quoted(s) && out.Room() == old(out.Room()) - |Quoted(s)|
    {
      hide Escaped;
      Put(out, [QUOTE]);
      PutEscaped(out, s);
      Put(out, [QUOTE]);
      QuotedParts(old(out.Written()), Escaped(s));
    }

    // ---------- Tokens ----------

    /** Encodes a token whose room has been checked. */
    method Encode(out: Out, call: Call)
      requires out.Valid() && !call.Content? && !call.EndString?
      requires |Output(Place(), call)| <= out.Room()
      modifies out.Footprint()
      ensures out.Valid() && out.Written() == old(out.Written()) + Output(Place(), call)
    {
      hide Lead, Bare, NewLine;
      ghost var before := out.Written();
      if call.Close? {
        PutNewLine(out, Up(depth));
        PutBare(out, call);
        Assoc(before, NewLine(indent, Up(depth)), Bare(call));
      } else {
        PutPrefix(out, GetPrefix());
        PutBare(out, call);
        Assoc(before, Lead(Place()), Bare(call));
      }
    }

    method PutBare(out: Out, call: Call)
      requires out.Valid() && !call.Content? && !call.EndString? && |Bare(call)| <= out.Room()
      modifies out.Footprint()
      ensures out.Valid() && out.Written() == old(out.Written()) + Bare(call)
    {
      hide Quoted;
      match call
      case Open(bracket) => Put(out, [bracket]);
      case Close(bracket) => Put(out, [bracket]);
      case Key(name) =>
        ghost var before := out.Written();
        PutQuoted(out, name);
        Put(out, [COLON]);
        Assoc(before, Quoted(name), [COLON]);
      case Str(value) => PutQuoted(out, value);
      case Verbatim(text) => Put(out, text);
      case StartString => Put(out, [QUOTE]);
    }

    /** Encodes a small token in a scratch and appends it once, a large one straight into the ring. */
    method Emit(buf: LoopBuf, need: nat, call: Call)
      requires buf.Valid() && !call.Content? && !call.EndString?
      requires need == |Output(Place(), call)| <= buf.SpareLen()
      modifies buf
      ensures buf.Valid() && buf.content == old(buf.content) + Output(Place(), call)
    {
      hide Output;
      if need <= SCRATCH {
        var scratch := new Scratch();
        Encode(ToScratch(scratch), call);
        buf.Append(scratch.AsSlice());
      } else {
        Encode(ToRing(buf), call);
      }
    }

    method WriteOpen(buf: LoopBuf, bracket: Byte) returns (r: Option<Error>)
      requires buf.Valid()
      modifies this, buf
      ensures buf.Valid()
      ensures Atomic(Open(bracket), buf.capacity, old(Place()), old(buf.content), r, Place(), buf.content)
    {
      PrefixLenIsLead();
      var need := PrefixLen(GetPrefix()) + 1;
      r := EnsureRoom(buf, need);
      if r.None? {
        Emit(buf, need, Open(bracket));
        state, depth := Init, depth + 1;
      }
    }

    method WriteClose(buf: LoopBuf, bracket: Byte) returns (r: Option<Error>)
      requires buf.Valid()
      modifies this, buf
      ensures buf.Valid()
      ensures Atomic(Close(bracket), buf.capacity, old(Place()), old(buf.content), r, Place(), buf.content)
    {
      var need := (if indent.Some? then 1 + indent.value.count * Up(depth) else 0) + 1;
      r := EnsureRoom(buf, need);
      if r.None? {
        Emit(buf, need, Close(bracket));
        state, depth := AfterValue, Up(depth);
      }
    }

    method WriteStartObject(buf: LoopBuf) returns (r: Option<Error>)
      requires buf.Valid()
      modifies this, buf
      ensures buf.Valid()
      ensures Atomic(Open(LBRACE), buf.capacity, old(Place()), old(buf.content), r, Place(), buf.content)
    {
      r := WriteOpen(buf, LBRACE);
    }

    method WriteStartArray(buf: LoopBuf) returns (r: Option<Error>)
      requires buf.Valid()
      modifies this, buf
      ensures buf.Valid()
      ensures Atomic(Open(LBRACKET), buf.capacity, old(Place()), old(buf.content), r, Place(), buf.content)
    {
      r := WriteOpen(buf, LBRACKET);
    }

    method WriteEndObject(buf: LoopBuf) returns (r: Option<Error>)
      requires buf.Valid()
      modifies this, buf
      ensures buf.Valid()
      ensures Atomic(Close(RBRACE), buf.capacity, old(Place()), old(buf.content), r, Place(), buf.content)
    {
      r := WriteClose(buf, RBRACE);
    }

    method WriteEndArray(buf: LoopBuf) returns (r: Option<Error>)
      requires buf.Valid()
      modifies this, buf
      ensures buf.Valid()
      ensures Atomic(Close(RBRACKET), buf.capacity, old(Place()), old(buf.content), r, Place(), buf.content)
    {
      r := WriteClose(buf, RBRACKET);
    }

    method WriteKey(buf: LoopBuf, name: Bytes) returns (r: Option<Error>)
      requires buf.Valid()
      modifies this, buf
      ensures buf.Valid()
      ensures Atomic(Key(name), buf.capacity, old(Place()), old(buf.content), r, Place(), buf.content)
    {
      PrefixLenIsLead();
      EscapedLenIsLength(name);
      var need := PrefixLen(GetPrefix()) + 2 + EscapedLen(name) + 1;
      r := EnsureRoom(buf, need);
      if r.None? {
        Emit(buf, need, Key(name));
        state := AfterKey;
      }
    }

    method WriteString(buf: LoopBuf, value: Bytes) returns (r: Option<Error>)
      requires buf.Valid()
      modifies this, buf
      ensures buf.Valid()
      ensures Atomic(Str(value), buf.capacity, old(Place()), old(buf.content), r, Place(), buf.content)
    {
      PrefixLenIsLead();
      EscapedLenIsLength(value);
      var need := PrefixLen(GetPrefix()) + 2 + EscapedLen(value);
      r := EnsureRoom(buf, need);
      if r.None? {
        Emit(buf, need, Str(value));
        state := AfterValue;
      }
    }

    /** A number's or a literal's text. */
    method WriteVerbatim(buf: LoopBuf, text: Bytes) returns (r: Option<Error>)
      requires buf.Valid()
      modifies this, buf
      ensures buf.Valid()
      ensures Atomic(Verbatim(text), buf.capacity, old(Place()), old(buf.content), r, Place(), buf.content)
    {
      PrefixLenIsLead();
      var need := PrefixLen(GetPrefix()) + |text|;
      r := EnsureRoom(buf, need);
      if r.None? {
        Emit(buf, need, Verbatim(text));
        state := AfterValue;
      }
    }

    method WriteBoolean(buf: LoopBuf, value: bool) returns (r: Option<Error>)
      requires buf.Valid()
      modifies this, buf
      ensures buf.Valid()
      ensures Atomic(Verbatim(if value then TRUE else FALSE), buf.capacity, old(Place()), old(buf.content), r, Place(), buf.content)
    {
      r := WriteVerbatim(buf, if value then TRUE else FALSE);
    }

    method WriteNull(buf: LoopBuf) returns (r: Option<Error>)
      requires buf.Valid()
      modifies this, buf
      ensures buf.Valid()
      ensures Atomic(Verbatim(NULL), buf.capacity, old(Place()), old(buf.content), r, Place(), buf.content)
    {
      r := WriteVerbatim(buf, NULL);
    }

    // ---------- Numbers ----------

    /** Fills a small array from its end with the decimal form of `value`. */
    static method Digits(value: Int64) returns (digits: array<Byte>, at: nat)
      ensures fresh(digits) && digits.Length == 20 && at <= 20 && digits[at..] == Decimal(value)
    {
      hide Numbers.Decimal;
      digits := new Byte[20](_ => 0);
      at := 20;
      var v: int := value;
      var magnitude := if v < 0 then -v else v;
      var rest := magnitude;
      Int64Short(magnitude);
      while rest >= 100
        invariant rest >= 0 && at <= 20 && Numbers.Decimal(rest) + digits[at..] == Numbers.Decimal(magnitude)
      {
        PairOff(rest);
        DecimalLength(rest);
        Assoc(Numbers.Decimal(rest / 100), PAIRS[rest % 100 * 2..rest % 100 * 2 + 2], digits[at..]);
        PutPair(digits, at, rest % 100);
        rest := rest / 100;
        at := at - 2;
      }
      DecimalLength(rest);
      PairOff(rest);
      if rest >= 10 {
        PutPair(digits, at, rest);
        at := at - 2;
      } else {
        PutDigit(digits, at, ZERO + rest);
        at := at - 1;
      }
      if value < 0 {
        PutDigit(digits, at, MINUS);
        at := at - 1;
      }
    }

    static method PutPair(digits: array<Byte>, at: nat, n: nat)
      requires n < 100 && 2 <= at <= digits.Length
      modifies digits
      ensures digits[at - 2..] == PAIRS[n * 2..n * 2 + 2] + old(digits[at..])
    {
      digits[at - 2], digits[at - 1] := PAIRS[n * 2], PAIRS[n * 2 + 1];
      assert digits[at..] == old(digits[at..]);
    }

    static method PutDigit(digits: array<Byte>, at: nat, b: Byte)
      requires 1 <= at <= digits.Length
      modifies digits
      ensures digits[at - 1..] == [b] + old(digits[at..])
    {
      digits[at - 1] := b;
      assert digits[at..] == old(digits[at..]);
    }

    static lemma DecimalLength(n: nat)
      ensures n >= 100 ==> |Numbers.Decimal(n)| >= 3
      ensures 10 <= n < 100 ==> |Numbers.Decimal(n)| == 2
      ensures n < 10 ==> Numbers.Decimal(n) == [ZERO + n]
    {
    }

    method WriteI64(buf: LoopBuf, value: Int64) returns (r: Option<Error>)
      requires buf.Valid()
      modifies this, buf
      ensures buf.Valid()
      ensures Atomic(Verbatim(Decimal(value)), buf.capacity, old(Place()), old(buf.content), r, Place(), buf.content)
    {
      var digits, at := Digits(value);
      r := WriteVerbatim(buf, digits[at..]);
    }

    /** A double, given how it prints: nothing is written for one that JSON cannot hold. */
    method WriteF64(buf: LoopBuf, printed: Option<Bytes>) returns (r: Option<Error>)
      requires buf.Valid()
      modifies this, buf
      ensures buf.Valid()
      ensures Numeric(F64(printed), buf.capacity, old(Place()), old(buf.content), r, Place(), buf.content)
    {
      if printed.None? {
        return Some(InvalidInput);
      }
      r := WriteVerbatim(buf, printed.value);
    }

    method WriteNumber(buf: LoopBuf, value: Value) returns (r: Option<Error>)
      requires buf.Valid()
      modifies this, buf
      ensures buf.Valid()
      ensures Numeric(value, buf.capacity, old(Place()), old(buf.content), r, Place(), buf.content)
    {
      match value
      case I32(v) => r := WriteI64(buf, v);
      case I64(v) => r := WriteI64(buf, v);
      case F64(printed) => r := WriteF64(buf, printed);
      case BigInt(text) => r := WriteVerbatim(buf, text);
    }

    // ---------- Strings in pieces ----------

    method WriteStartString(buf: LoopBuf) returns (r: Option<Error>)
      requires buf.Valid()
      modifies this, buf
      ensures buf.Valid()
      ensures Atomic(StartString, buf.capacity, old(Place()), old(buf.content), r, Place(), buf.content)
    {
      PrefixLenIsLead();
      var need := PrefixLen(GetPrefix()) + 1;
      r := EnsureRoom(buf, need);
      if r.None? {
        Emit(buf, need, StartString);
      }
    }

    method WriteEndString(buf: LoopBuf) returns (r: Option<Error>)
      requires buf.Valid()
      modifies this, buf
      ensures buf.Valid()
      ensures Atomic(EndString, buf.capacity, old(Place()), old(buf.content), r, Place(), buf.content)
    {
      r := EnsureRoom(buf, 1);
      if r.None? {
        buf.Append([QUOTE]);
        state := AfterValue;
      }
    }

    /** How much of `text` fits, escaped: its longest front of whole characters. */
    static method HowMuchFits(text: Bytes, spare: nat) returns (taken: nat)
      requires Utf8.ValidUtf8(text)
      ensures Longest(text, taken, spare)
    {
      hide Escaped, Utf8.ValidUtf8, Utf8.CharAt;
      var limit := Min(|text|, spare);
      while !IsBoundary(text, limit)
        invariant 0 <= limit <= Min(|text|, spare)
        invariant forall j :: limit < j <= |text| && IsBoundary(text, j) ==> j > spare
        decreases limit
      {
        limit := limit - 1;
      }
      PastLimit(text, limit, spare);
      EscapedLenIsLength(text[..limit]);
      if EscapedLen(text[..limit]) <= spare {
        return limit;
      }
      var used := 0;
      taken := 0;
      NothingEscaped(text, []);
      while taken < limit
        invariant taken <= limit && IsBoundary(text, taken) && used == |Escaped(text[..taken])| <= spare
      {
        BoundaryCuts(text, taken);
        NextBoundary(text, taken, limit);
        var n := Utf8.CharAt(text[taken..]).n;
        NextCharacter(text, taken, n);
        var size := EscapedCharLen(text[taken..taken + n]);
        if used + size > spare {
          NothingLongerFits(text, taken, taken + n, spare);
          return;
        }
        used := used + size;
        taken := taken + n;
      }
    }

    static lemma PastLimit(text: Bytes, limit: nat, spare: nat)
      requires limit <= |text| && forall j :: limit < j <= |text| && IsBoundary(text, j) ==> j > spare
      ensures forall j :: limit < j <= |text| ==> !FitsEscaped(text, j, spare)
    {
    }

    static lemma NothingLongerFits(text: Bytes, i: nat, next: nat, spare: nat)
      requires i < next <= |text| && |Escaped(text[..next])| > spare
      requires forall j :: i < j <= |text| && IsBoundary(text, j) ==> next <= j
      ensures forall j :: i < j <= |text| ==> !FitsEscaped(text, j, spare)
    {
      forall j | i < j <= |text| && IsBoundary(text, j) ensures !FitsEscaped(text, j, spare) {
        EscapedGrows(text, next, j);
      }
    }

    /** Six bytes are room for any character. */
    static lemma SixIsEnough(text: Bytes, spare: nat)
      requires Utf8.ValidUtf8(text) && text != [] && Longest(text, 0, spare)
      ensures spare < 6
    {
      assert text[0..] == text && text[..0] == [];
      var n := Utf8.CharAt(text).n;
      NextCharacter(text, 0, n);
      assert !FitsEscaped(text, n, spare);
    }

    /** Puts as much of `text` as fits: taking nothing of something is an error. */
    method WriteStringContent(buf: LoopBuf, text: Bytes) returns (r: Option<Error>, taken: nat)
      requires buf.Valid() && Utf8.ValidUtf8(text)
      modifies buf
      ensures buf.Valid() && Longest(text, taken, old(buf.SpareLen()))
      ensures buf.content == old(buf.content) + Escaped(text[..taken])
      ensures text == [] ==> r.None?
      ensures text != [] ==> (r.None? <==> taken > 0)
      ensures r.Some? ==> r.value == if buf.capacity < 6 then InvalidInput else WouldBlock
    {
      hide Escaped, Longest;
      taken := 0;
      if text == [] {
        NothingToTake(text, buf.SpareLen());
        return None, 0;
      }
      taken := HowMuchFits(text, buf.SpareLen());
      if taken == 0 {
        NothingToTake([], 0);
        assert text[..0] == [];
        SixIsEnough(text, buf.SpareLen());
        r := EnsureRoom(buf, 6);
        if r.None? {
          r := Some(WouldBlock);
        }
        return;
      }
      LongestFits(text, taken, buf.SpareLen());
      PutEscaped(ToRing(buf), text[..taken]);
      r := None;
    }

    static lemma NothingToTake(text: Bytes, spare: nat)
      requires text == []
      ensures Longest(text, 0, spare) && text[..0] == [] && Escaped([]) == []
    {
    }

    static lemma LongestFits(text: Bytes, taken: nat, spare: nat)
      requires Longest(text, taken, spare)
      ensures taken <= |text| && |Escaped(text[..taken])| <= spare && IsBoundary(text, taken)
    {
    }
  }

  const TRUE: Bytes := [0x74, 0x72, 0x75, 0x65]
  const FALSE: Bytes := [0x66, 0x61, 0x6C, 0x73, 0x65]
  const NULL: Bytes := [0x6E, 0x75, 0x6C, 0x6C]
}
