// JSON texts (sections 2 to 7 of RFC 8259) as trees that keep every byte, and
// what there is to tell of them.
module Grammar {
  import opened Base
  import opened Events
  import opened Positions
  import opened StringGrammar
  import Machine
  import NumberLaws

  // The bytes that the grammar names are written out in it: space, tab, line feed and
  // carriage return here, and the letters and signs of the texts below.

  predicate IsBlank(b: Byte) {
    b == 0x20 || b == 0x09 || b == 0x0A || b == 0x0D
  }

  type Space = s: Bytes | forall i :: 0 <= i < |s| ==> IsBlank(s[i]) witness []
  type Content = raw: Bytes | IsContent(raw) witness []
  type Numeral = t: NumberLaws.Token | NumberLaws.WellFormed(t)
    witness NumberLaws.Token(false, [ZERO], None, NumberLaws.NoExponent)

  datatype Word = True | False | Null

  datatype Value =
    | Literal(word: Word)
    | Number(numeral: Numeral)
    | Str(raw: Content)
    | EmptyArray(space: Space)
    | Array(init: Items, last: Item)
    | EmptyObject(space: Space)
    | Object(names: Members, final: Member)

  /** A value with the whitespace around it: an array's element, or a whole text. */
  datatype Item = Item(before: Space, value: Value, after: Space)

  datatype Member = Member(before: Space, key: Content, mid: Space, item: Item)

  datatype Items = NoItems | Items(init: Items, last: Item)

  datatype Members = NoMembers | Members(init: Members, last: Member)

  // ---------- The text ----------

  function WordText(w: Word): (text: Bytes)
    ensures text != []
  {
    match w
    case True => [0x74, 0x72, 0x75, 0x65]
    case False => [0x66, 0x61, 0x6C, 0x73, 0x65]
    case Null => [0x6E, 0x75, 0x6C, 0x6C]
  }

  function ValueText(v: Value): Bytes {
    match v
    case Literal(w) => WordText(w)
    case Number(t) => NumberLaws.Text(t)
    case Str(raw) => [0x22] + raw + [0x22]
    case EmptyArray(space) => [0x5B] + space + [0x5D]
    case Array(init, last) => [0x5B] + ItemsText(init) + Text(last) + [0x5D]
    case EmptyObject(space) => [0x7B] + space + [0x7D]
    case Object(names, final) => [0x7B] + MembersText(names) + MemberText(final) + [0x7D]
  }

  function Text(item: Item): Bytes {
    item.before + ValueText(item.value) + item.after
  }

  /** The items before the last, each with its comma. */
  function ItemsText(items: Items): Bytes {
    match items
    case NoItems => []
    case Items(init, last) => ItemsText(init) + Text(last) + [0x2C]
  }

  function MembersText(members: Members): Bytes {
    match members
    case NoMembers => []
    case Members(init, last) => MembersText(init) + MemberText(last) + [0x2C]
  }

  function MemberText(m: Member): Bytes {
    m.before + [0x22] + m.key + [0x22] + m.mid + [0x3A] + Text(m.item)
  }

  // ---------- What is told of it ----------

  /** What has been read, what was told of it, and how many tokens that took. */
  datatype Account = Account(text: Bytes, log: Log, tokens: nat)

  const NOTHING := Account([], [], 0)

  function Spaced(ws: bool, a: Account, space: Space): Account {
    Account(a.text + space, if ws then JoinWhitespace(a.log, space) else a.log, a.tokens)
  }

  function Punctuated(a: Account, b: Byte): Account {
    Account(a.text + [b], a.log, a.tokens + 1)
  }

  function Opened(a: Account, c: Machine.Context): Account {
    var text := a.text + [if c.InObject? then LBRACE else LBRACKET];
    Account(text, a.log + [if c.InObject? then StartObject(PosOf(text)) else StartArray(PosOf(text))], a.tokens + 1)
  }

  function Closed(a: Account, c: Machine.Context): Account {
    var text := a.text + [if c.InObject? then RBRACE else RBRACKET];
    Account(text, a.log + [if c.InObject? then EndObject(PosOf(text)) else EndArray(PosOf(text))], a.tokens + 1)
  }

  function AfterWord(a: Account, w: Word): Account {
    var text := a.text + WordText(w);
    var at := PosOf(text);
    Account(text, a.log + [if w.Null? then NullValue(at) else BooleanValue(w.True?, at)], a.tokens + 1)
  }

  function AfterNumeral(a: Account, t: Numeral): Account {
    var text := a.text + NumberLaws.Text(t);
    Account(text, a.log + [NumberValue(NumberLaws.Meaning(t), PosOf(text))], a.tokens + 1)
  }

  function AfterString(a: Account, raw: Content): Account {
    var start := a.text + [QUOTE];
    var end := start + raw + [QUOTE];
    Account(end, JoinContent(a.log + [StartString(PosOf(start))], Decode(raw)) + [EndString(PosOf(end))], a.tokens + 1)
  }

  function AfterKey(a: Account, raw: Content): Account {
    var text := a.text + [QUOTE] + raw + [QUOTE];
    Account(text, a.log + [Key(Decode(raw), PosOf(text))], a.tokens + 1)
  }

  /** `a` once `v` has been read too; `ws` asks for whitespace to be told. */
  function After(ws: bool, a: Account, v: Value): Account
    decreases v, 0
  {
    match v
    case Literal(w) => AfterWord(a, w)
    case Number(t) => AfterNumeral(a, t)
    case Str(raw) => AfterString(a, raw)
    case EmptyArray(space) => Closed(Spaced(ws, Opened(a, Machine.InArray), space), Machine.InArray)
    case Array(init, last) =>
      Closed(AfterItem(ws, NextItem(ws, Opened(a, Machine.InArray), init), last), Machine.InArray)
    case EmptyObject(space) => Closed(Spaced(ws, Opened(a, Machine.InObject), space), Machine.InObject)
    case Object(names, final) =>
      Closed(AfterMember(ws, NextMember(ws, Opened(a, Machine.InObject), names), final), Machine.InObject)
  }

  function AfterItem(ws: bool, a: Account, item: Item): Account
    decreases item, 0
  {
    Spaced(ws, After(ws, Spaced(ws, a, item.before), item.value), item.after)
  }

  /** Past these items and their commas. */
  function NextItem(ws: bool, a: Account, items: Items): Account
    decreases items, 0
  {
    match items
    case NoItems => a
    case Items(init, last) => Punctuated(AfterItem(ws, NextItem(ws, a, init), last), COMMA)
  }

  function AfterMember(ws: bool, a: Account, m: Member): Account
    decreases m, 0
  {
    AfterItem(ws, AtMemberValue(ws, a, m.before, m.key, m.mid), m.item)
  }

  /** Past a member's key and colon. */
  function AtMemberValue(ws: bool, a: Account, before: Space, key: Content, mid: Space): Account {
    Punctuated(Spaced(ws, AfterKey(Spaced(ws, a, before), key), mid), COLON)
  }

  function NextMember(ws: bool, a: Account, members: Members): Account
    decreases members, 0
  {
    match members
    case NoMembers => a
    case Members(init, last) => Punctuated(AfterMember(ws, NextMember(ws, a, init), last), COMMA)
  }

  // ---------- Limits ----------

  function Keys(members: Members): set<Bytes> {
    match members
    case NoMembers => {}
    case Members(init, last) => Keys(init) + {Decode(last.key)}
  }

  predicate KeyFits(cfg: Machine.Config, init: Members, key: Content) {
    && !Machine.Exceeds(|key|, cfg.limits.nameLength)
    && |Decode(key)| <= cfg.chunk
    && (cfg.rejectDuplicates ==> Decode(key) !in Keys(init))
  }

  predicate DepthFits(cfg: Machine.Config, depth: nat) {
    !Machine.Exceeds(depth, cfg.limits.nestingDepth)
  }

  /** Whether `v`, inside `depth` others, keeps the limits (but for the token count). */
  predicate Fits(cfg: Machine.Config, v: Value, depth: nat) {
    match v
    case Literal(_) => true
    case Number(t) => |NumberLaws.Text(t)| <= 1 || !Machine.Exceeds(|NumberLaws.Text(t)|, cfg.limits.numberLength)
    case Str(raw) => !Machine.Exceeds(|raw|, cfg.limits.stringLength)
    case EmptyArray(_) => DepthFits(cfg, depth + 1)
    case EmptyObject(_) => DepthFits(cfg, depth + 1)
    case Array(init, last) => DepthFits(cfg, depth + 1) && ItemsFit(cfg, init, depth + 1) && Fits(cfg, last.value, depth + 1)
    case Object(names, final) =>
      && DepthFits(cfg, depth + 1) && MembersFit(cfg, names, depth + 1)
      && KeyFits(cfg, names, final.key) && Fits(cfg, final.item.value, depth + 1)
  }

  predicate ItemsFit(cfg: Machine.Config, items: Items, depth: nat) {
    items.Items? ==> ItemsFit(cfg, items.init, depth) && Fits(cfg, items.last.value, depth)
  }

  predicate MembersFit(cfg: Machine.Config, members: Members, depth: nat) {
    members.Members? ==>
      && MembersFit(cfg, members.init, depth)
      && KeyFits(cfg, members.init, members.last.key)
      && Fits(cfg, members.last.item.value, depth)
  }

  /** Every key of `v` is at most `n` bytes long with its quotes. */
  predicate KeysShort(v: Value, n: int) {
    match v
    case Array(init, last) => ItemKeysShort(init, n) && KeysShort(last.value, n)
    case Object(names, final) => MemberKeysShort(names, n) && |final.key| + 2 <= n && KeysShort(final.item.value, n)
    case _ => true
  }

  predicate ItemKeysShort(items: Items, n: int) {
    items.Items? ==> ItemKeysShort(items.init, n) && KeysShort(items.last.value, n)
  }

  predicate MemberKeysShort(members: Members, n: int) {
    members.Members? ==> MemberKeysShort(members.init, n) && |members.last.key| + 2 <= n && KeysShort(members.last.item.value, n)
  }

  // ---------- The account is of the text ----------

  lemma {:induction false} AfterText(ws: bool, a: Account, v: Value)
    ensures After(ws, a, v).text == a.text + ValueText(v)
    decreases v
  {
    match v
    case Array(init, last) =>
      var opening := Opened(a, Machine.InArray);
      NextItemText(ws, opening, init);
      AfterItemText(ws, NextItem(ws, opening, init), last);
      Bracketed(a.text, LBRACKET, ItemsText(init), Text(last), RBRACKET);
    case Object(names, final) =>
      var opening := Opened(a, Machine.InObject);
      NextMemberText(ws, opening, names);
      AfterMemberText(ws, NextMember(ws, opening, names), final);
      Bracketed(a.text, LBRACE, MembersText(names), MemberText(final), RBRACE);
    case EmptyArray(space) => Bracketed(a.text, LBRACKET, space, [], RBRACKET);
    case EmptyObject(space) => Bracketed(a.text, LBRACE, space, [], RBRACE);
    case Str(raw) => Bracketed(a.text, QUOTE, raw, [], QUOTE);
    case _ =>
  }

  lemma Bracketed(pre: Bytes, open: Byte, inner: Bytes, last: Bytes, close: Byte)
    ensures pre + [open] + inner + last + [close] == pre + ([open] + inner + last + [close])
    ensures last == [] ==> pre + [open] + inner + [close] == pre + ([open] + inner + [close])
  {
  }

  lemma Concat3(pre: Bytes, a: Bytes, b: Bytes, c: Bytes)
    ensures pre + a + b + c == pre + (a + b + c)
  {
  }

  lemma {:induction false} AfterItemText(ws: bool, a: Account, item: Item)
    ensures AfterItem(ws, a, item).text == a.text + Text(item)
    decreases item
  {
    AfterText(ws, Spaced(ws, a, item.before), item.value);
    hide After, ValueText;
    Concat3(a.text, item.before, ValueText(item.value), item.after);
  }

  lemma {:induction false} NextItemText(ws: bool, a: Account, items: Items)
    ensures NextItem(ws, a, items).text == a.text + ItemsText(items)
    decreases items
  {
    if items.Items? {
      NextItemText(ws, a, items.init);
      AfterItemText(ws, NextItem(ws, a, items.init), items.last);
      hide AfterItem, Text;
      Concat3(a.text, ItemsText(items.init), Text(items.last), [COMMA]);
    }
  }

  lemma {:induction false} AfterMemberText(ws: bool, a: Account, m: Member)
    ensures AfterMember(ws, a, m).text == a.text + MemberText(m)
    decreases m
  {
    AfterItemText(ws, AtMemberValue(ws, a, m.before, m.key, m.mid), m.item);
    hide AfterItem, Text;
    var name := m.before + [QUOTE] + m.key;
    Concat3(a.text, m.before, [QUOTE], m.key);
    Concat3(a.text, name, [QUOTE], m.mid);
    Concat3(a.text, name + [QUOTE] + m.mid, [COLON], Text(m.item));
  }

  lemma {:induction false} NextMemberText(ws: bool, a: Account, members: Members)
    ensures NextMember(ws, a, members).text == a.text + MembersText(members)
    decreases members
  {
    if members.Members? {
      NextMemberText(ws, a, members.init);
      AfterMemberText(ws, NextMember(ws, a, members.init), members.last);
      hide AfterMember, MemberText;
      Concat3(a.text, MembersText(members.init), MemberText(members.last), [COMMA]);
    }
  }
}
