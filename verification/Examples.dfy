// A few texts in full, byte by byte: what is told of them, and what is written.
module Examples {
  import opened Base
  import opened Events
  import opened Machine
  import opened Layouts
  import opened StringGrammar
  import opened Positions
  import G = Grammar
  import Documents
  import Prefixes
  import Scanning
  import Acceptance
  import NumberLaws
  import Numbers
  import Utf8

  /** `\uD83D\uDE00` is U+1F600, in four bytes. */
  lemma GrinningFace()
    ensures IsContent(HIGH + LOW) && Decode(HIGH + LOW) == [0xF0, 0x9F, 0x98, 0x80]
  {
    hide IsContent, Decode, CodeUnitOf, IsUnicodeEscape, Utf8.Encode;
    Units();
    EscapedPair(0x1F600, HIGH, LOW);
    Utf8.EncodeTable(0x1F600);
  }

  const HIGH: Bytes := [0x5C, 0x75, 0x44, 0x38, 0x33, 0x44]
  const LOW: Bytes := [0x5C, 0x75, 0x44, 0x45, 0x30, 0x30]

  lemma Units()
    ensures IsUnicodeEscape(HIGH) && IsUnicodeEscape(LOW) && CodeUnitOf(HIGH) == 0xD83D && CodeUnitOf(LOW) == 0xDE00
  {
  }

  /** `\/` is a slash. */
  lemma EscapedSlash()
    ensures IsContent([0x5C, 0x2F]) && Decode([0x5C, 0x2F]) == [0x2F]
  {
    var raw := [0x5C, 0x2F];
    assert EscapeAt(raw) == StringGrammar.Escaped(0x2F, 2) && raw[2..] == [];
    assert Elements(raw) == [CodeUnit(0x2F)] + Elements([]);
    assert Elements(raw) == [CodeUnit(0x2F)];
    UnitAlone(0x2F);
  }

  /** `[1]`, indented by two spaces. */
  lemma OneElementIndented()
    ensures Unbounded(Place(Some(Indent(0x20, 2)), Init0, 0), [Open(0x5B), Call.Verbatim([0x31]), Close(0x5D)])
         == [0x5B, 0x0A, 0x20, 0x20, 0x31, 0x0A, 0x5D]
  {
    var p, calls := Place(Some(Indent(0x20, 2)), Init0, 0), [Open(0x5B), Call.Verbatim([0x31]), Close(0x5D)];
    NewLineShape(Indent(0x20, 2), 0);
    NewLineShape(Indent(0x20, 2), 1);
    assert NewLine(Some(Indent(0x20, 2)), 0) == [0x0A];
    assert NewLine(Some(Indent(0x20, 2)), 1) == [0x0A, 0x20, 0x20];
    assert calls == [Open(0x5B)] + ([Call.Verbatim([0x31])] + [Close(0x5D)]);
    OneCall(p, Open(0x5B));
    var q := Next(p, Open(0x5B));
    OneCall(q, Call.Verbatim([0x31]));
    var r := Next(q, Call.Verbatim([0x31]));
    OneCall(r, Close(0x5D));
    UnboundedConcat(p, [Open(0x5B)], [Call.Verbatim([0x31])] + [Close(0x5D)]);
    UnboundedConcat(q, [Call.Verbatim([0x31])], [Close(0x5D)]);
  }

  // ---------- A document ----------

  // A mark, then an object in three lines: its member k is an array of 1E5 and true.
  const DOCUMENT: Bytes := [0xEF, 0xBB, 0xBF] + TEXT
  const TEXT: Bytes := FIRST + SECOND + THIRD
  const FIRST: Bytes := [0x7B, 0x0A]
  const SECOND: Bytes := [0x20, 0x20, 0x22, 0x6B, 0x22, 0x3A, 0x20, 0x5B, 0x31, 0x45, 0x35, 0x2C, 0x20, 0x74, 0x72, 0x75, 0x65, 0x5D, 0x0D, 0x0A]
  const THIRD: Bytes := [0x7D, 0x09]

  const TOLD: Log := [
    StartObject(Pos(1, 2)),
    Event.Key([0x6B], Pos(2, 6)),
    StartArray(Pos(2, 9)),
    NumberValue(Numbers.Real(false, 1, 5, false, -1), Pos(2, 12)),
    BooleanValue(true, Pos(2, 18)),
    EndArray(Pos(2, 19)),
    EndObject(Pos(3, 2))
  ]

  function Numeral(): (t: G.Numeral) {
    NumberLaws.Token(false, [0x31], None, NumberLaws.ExponentPart(0x45, None, [0x35]))
  }

  lemma NumeralIs()
    ensures NumberLaws.Text(Numeral()) == [0x31, 0x45, 0x35]
    ensures NumberLaws.Meaning(Numeral()) == Numbers.Real(false, 1, 5, false, -1)
  {
    assert [0x31][..0] == [] && [0x35][..0] == [] && [0x31][..1] == [0x31] && [0x31][1..] == [];
    assert Numbers.Value([0x31]) == 1;
    assert [0x31] + [] == [0x31];
    assert NumberLaws.Saturated([0x35]) == 5;
  }

  function Letter(): (raw: G.Content)
    ensures raw == [0x6B] && Decode(raw) == [0x6B]
  {
    assert [0x6B][1..] == [] && [0x6B][..1] == [0x6B];
    assert Elements([0x6B]) == [StringGrammar.Verbatim([0x6B])] + Elements([]);
    assert Elements([0x6B])[1..] == [];
    assert [0x6B] + [] == [0x6B];
    [0x6B]
  }

  lemma OnSecondLine(k: nat)
    requires k <= 18
    ensures PosOf(FIRST + SECOND[..k]) == Pos(2, 1 + k)
  {
    assert FIRST[..1] == [0x7B] && [0x7B][..0] == [];
    assert PosOf(FIRST) == Pos(2, 1);
    assert forall i :: 0 <= i < k ==> SECOND[..k][i] == SECOND[i];
    if k > 0 {
      PosAfterAscii(FIRST, SECOND[..k]);
    } else {
      assert FIRST + SECOND[..0] == FIRST;
    }
  }

  lemma OnThirdLine()
    ensures PosOf(FIRST + SECOND + [0x7D]) == Pos(3, 2)
  {
    var before, cr := FIRST + SECOND[..18], FIRST + SECOND[..18] + [0x0D];
    OnSecondLine(18);
    hide FIRST;
    assert cr[..|cr| - 1] == before;
    assert PosOf(cr) == Pos(3, 1);
    var lf := cr + [0x0A];
    assert lf[..|lf| - 1] == cr && FIRST + SECOND == lf;
    assert PosOf(lf) == Pos(3, 1);
    PosAfterByte(lf, 0x7D);
  }

  function Final(): G.Member {
    G.Member([0x0A, 0x20, 0x20], Letter(), [], G.Item([0x20], Elements2(), [0x0D, 0x0A]))
  }

  function Elements2(): G.Value {
    G.Array(G.Items(G.NoItems, G.Item([], G.Number(Numeral()), [])), G.Item([0x20], G.Literal(G.True), []))
  }

  function Tree(): G.Item {
    G.Item([], G.Object(G.NoMembers, Final()), [0x09])
  }

  function Front(k: nat): Bytes
    requires k <= 20
  {
    FIRST + SECOND[..k]
  }

  lemma FrontGrows(k: nat, n: nat)
    requires k + n <= 20
    ensures Front(k) + SECOND[k..k + n] == Front(k + n)
  {
    assert SECOND[..k] + SECOND[k..k + n] == SECOND[..k + n];
    Assoc(FIRST, SECOND[..k], SECOND[k..k + n]);
  }

  lemma KeyRead(log: Log)
    ensures G.AtMemberValue(false, G.Account([0x7B], log, 1), [0x0A, 0x20, 0x20], Letter(), [])
         == G.Account(Front(6), log + [Event.Key([0x6B], Pos(2, 6))], 3)
  {
    OnSecondLine(5);
    FrontGrows(5, 1);
    assert SECOND[5..6] == [COLON];
    assert [0x7B] + [0x0A, 0x20, 0x20] + [QUOTE] + [0x6B] + [QUOTE] == Front(5);
    hide PosOf, FIRST, SECOND, Front, Decode;
    var a := G.Spaced(false, G.Account([0x7B], log, 1), [0x0A, 0x20, 0x20]);
    var b := G.AfterKey(a, Letter());
    assert b == G.Account(Front(5), log + [Event.Key([0x6B], Pos(2, 6))], 2);
    assert Front(5) + [] == Front(5);
    assert G.Punctuated(G.Spaced(false, b, []), COLON) == G.Account(Front(6), b.log, 3);
  }

  lemma Part(k: nat, part: Bytes)
    requires k + |part| <= 20 && SECOND[k..k + |part|] == part
    ensures Front(k) + part == Front(k + |part|)
    ensures k + |part| <= 18 ==> PosOf(Front(k + |part|)) == Pos(2, 1 + k + |part|)
  {
    hide FIRST, SECOND, PosOf;
    FrontGrows(k, |part|);
    if k + |part| <= 18 {
      OnSecondLine(k + |part|);
    }
  }

  /** The parts of the second line, and where they end. */
  lemma Parts()
    ensures Front(7) + [LBRACKET] == Front(8) && PosOf(Front(8)) == Pos(2, 9)
    ensures Front(8) + [0x31, 0x45, 0x35] == Front(11) && PosOf(Front(11)) == Pos(2, 12)
    ensures Front(11) + [COMMA] == Front(12) && Front(12) + [0x20] == Front(13)
    ensures Front(13) + [0x74, 0x72, 0x75, 0x65] == Front(17) && PosOf(Front(17)) == Pos(2, 18)
    ensures Front(17) + [RBRACKET] == Front(18) && PosOf(Front(18)) == Pos(2, 19)
  {
    hide PosOf, Front;
    assert SECOND[7..8] == [LBRACKET] && SECOND[8..11] == [0x31, 0x45, 0x35] && SECOND[11..12] == [COMMA] && SECOND[12..13] == [0x20];
    assert SECOND[13..17] == [0x74, 0x72, 0x75, 0x65] && SECOND[17..18] == [RBRACKET];
    hide FIRST, SECOND;
    Part(7, [LBRACKET]);
    Part(8, [0x31, 0x45, 0x35]);
    Part(11, [COMMA]);
    Part(12, [0x20]);
    Part(13, [0x74, 0x72, 0x75, 0x65]);
    Part(17, [RBRACKET]);
  }

  lemma NumberRead(log: Log)
    ensures G.NextItem(false, G.Account(Front(8), log, 4), Elements2().init)
         == G.Account(Front(12), log + [NumberValue(Numbers.Real(false, 1, 5, false, -1), Pos(2, 12))], 6)
  {
    Parts();
    NumeralIs();
    hide PosOf, FIRST, SECOND, Front, Numeral, NumberLaws.Text, NumberLaws.Meaning;
    assert Front(8) + [] == Front(8) && Front(11) + [] == Front(11);
    var a := G.Account(Front(8), log, 4);
    assert G.AfterNumeral(a, Numeral()) == G.Account(Front(11), log + [NumberValue(Numbers.Real(false, 1, 5, false, -1), Pos(2, 12))], 5);
  }

  lemma TruthRead(log: Log)
    ensures G.AfterItem(false, G.Account(Front(12), log, 6), Elements2().last)
         == G.Account(Front(17), log + [BooleanValue(true, Pos(2, 18))], 7)
  {
    Parts();
    hide PosOf, FIRST, SECOND, Front;
    assert Front(17) + [] == Front(17);
    assert G.AfterWord(G.Account(Front(13), log, 6), G.True) == G.Account(Front(17), log + [BooleanValue(true, Pos(2, 18))], 7);
  }

  lemma ArrayRead(log: Log)
    ensures G.After(false, G.Account(Front(7), log, 3), Elements2())
         == G.Account(Front(18), log + [StartArray(Pos(2, 9)), NumberValue(Numbers.Real(false, 1, 5, false, -1), Pos(2, 12)),
                                        BooleanValue(true, Pos(2, 18)), EndArray(Pos(2, 19))], 8)
  {
    hide PosOf, FIRST, SECOND, Front, G.NextItem, G.AfterItem;
    Parts();
    var start, number, truth, end := StartArray(Pos(2, 9)), NumberValue(Numbers.Real(false, 1, 5, false, -1), Pos(2, 12)),
                                     BooleanValue(true, Pos(2, 18)), EndArray(Pos(2, 19));
    NumberRead(log + [start]);
    TruthRead(log + [start] + [number]);
    var a := G.Account(Front(7), log, 3);
    assert G.Opened(a, InArray) == G.Account(Front(8), log + [start], 4);
    var told := log + [start] + [number] + [truth];
    assert G.Closed(G.Account(Front(17), told, 7), InArray) == G.Account(Front(18), told + [end], 8);
    assert told + [end] == log + [start, number, truth, end];
  }

  const KEYED: Log := [StartObject(Pos(1, 2)), Event.Key([0x6B], Pos(2, 6))]
  const LISTED: Log := [StartArray(Pos(2, 9)), NumberValue(Numbers.Real(false, 1, 5, false, -1), Pos(2, 12)), BooleanValue(true, Pos(2, 18)),
                        EndArray(Pos(2, 19))]

  lemma MemberRead()
    ensures G.AfterMember(false, G.Account([0x7B], [StartObject(Pos(1, 2))], 1), Final()) == G.Account(Front(20), KEYED + LISTED, 8)
  {
    hide PosOf, Front, Elements2, Letter, FIRST, SECOND, G.AtMemberValue, G.After;
    KeyRead([StartObject(Pos(1, 2))]);
    ArrayRead(KEYED);
    Ends();
    assert [StartObject(Pos(1, 2))] + [Event.Key([0x6B], Pos(2, 6))] == KEYED;
    var b := G.AtMemberValue(false, G.Account([0x7B], [StartObject(Pos(1, 2))], 1), [0x0A, 0x20, 0x20], Letter(), []);
    assert G.Spaced(false, b, [0x20]) == G.Account(Front(7), KEYED, 3);
    var c := G.After(false, G.Spaced(false, b, [0x20]), Elements2());
    assert G.Spaced(false, c, [0x0D, 0x0A]) == G.Account(Front(20), KEYED + LISTED, 8);
  }

  lemma AllTold()
    ensures KEYED + LISTED + [EndObject(Pos(3, 2))] == TOLD
  {
  }

  lemma TreeRead()
    ensures G.AfterItem(false, G.NOTHING, Tree()) == G.Account(TEXT, TOLD, 9)
  {
    hide TEXT, TOLD, KEYED, LISTED, FIRST, SECOND, THIRD, Front, Final;
    OnThirdLine();
    Ends();
    MemberRead();
    AllTold();
    hide PosOf, G.AfterMember;
    assert [] + [] + [LBRACE] == [0x7B];
    var inside := G.Opened(G.Spaced(false, G.NOTHING, []), InObject);
    assert inside == G.Account([0x7B], [StartObject(Pos(1, 2))], 1);
    var member := G.AfterMember(false, inside, Final());
    var closed := G.Closed(member, InObject);
    assert closed == G.Account(Front(20) + [0x7D], TOLD, 9);
    assert G.After(false, G.Spaced(false, G.NOTHING, []), Tree().value) == closed;
  }

  lemma Ends()
    ensures Front(6) + [0x20] == Front(7) && Front(18) + [0x0D, 0x0A] == Front(20)
    ensures Front(20) + [0x7D] == FIRST + SECOND + [0x7D] && Front(20) + [0x7D] + [0x09] == TEXT
    ensures PosOf([0x7B]) == Pos(1, 2)
  {
    FrontGrows(6, 1);
    FrontGrows(18, 2);
    assert SECOND[6..7] == [0x20] && SECOND[18..20] == [0x0D, 0x0A] && SECOND[..20] == SECOND;
    assert [0x7B][..0] == [];
  }

  /** What is told of the document, with no limits, whitespace not asked for. */
  lemma DocumentTold(cfg: Config)
    requires cfg.limits == Prefixes.UNLIMITED && !cfg.needsWhitespace && cfg.chunk >= 1
    ensures Documents.Judge(cfg, DOCUMENT) == Some(TOLD)
  {
    TreeRead();
    hide TEXT, Tree, TOLD;
    assert DOCUMENT[..3] == [0xEF, 0xBB, 0xBF] && DOCUMENT[3..] == TEXT;
    TreeFits(cfg);
    G.AfterItemText(false, G.NOTHING, Tree());
    Acceptance.AcceptsJson(cfg, DOCUMENT, Tree());
  }

  lemma TreeFits(cfg: Config)
    requires cfg.limits == Prefixes.UNLIMITED && cfg.chunk >= 1
    ensures G.Fits(cfg, Tree().value, 0)
  {
    hide Decode, IsContent, Letter, Numeral;
    assert G.KeyFits(cfg, G.NoMembers, Letter());
    var items := G.Items(G.NoItems, G.Item([], G.Number(Numeral()), []));
    assert G.ItemsFit(cfg, G.NoItems, 2) && G.ItemsFit(cfg, items, 2);
    assert G.Fits(cfg, Elements2(), 1);
  }

  // ---------- Short documents ----------

  /** One character beyond ASCII, in quotes. */
  lemma StringTold(cfg: Config)
    requires cfg.limits == Prefixes.UNLIMITED && !cfg.needsWhitespace
    ensures Documents.Judge(cfg, [0x22, 0xC3, 0xA9, 0x22])
         == Some([Event.StartString(Pos(1, 2)), Event.Content([0xC3, 0xA9]), Event.EndString(Pos(1, 4))])
  {
    StringRead();
    hide G.AfterItem, Accented;
    Told(cfg, G.Item([], G.Str(Accented()), []));
  }

  lemma StringRead()
    ensures var item := G.Item([], G.Str(Accented()), []);
            && G.Text(item) == [0x22, 0xC3, 0xA9, 0x22]
            && G.AfterItem(false, G.NOTHING, item).log
               == [Event.StartString(Pos(1, 2)), Event.Content([0xC3, 0xA9]), Event.EndString(Pos(1, 4))]
  {
    QuotesAt();
    hide PosOf, Accented, IsContent, Decode;
    var raw := Accented();
    assert [] + ([0x22] + raw + [0x22]) + [] == [0x22, 0xC3, 0xA9, 0x22];
    var a := G.Spaced(false, G.NOTHING, []);
    assert a == G.NOTHING;
    assert [] + [QUOTE] == [0x22] && [0x22] + raw + [QUOTE] == [0x22, 0xC3, 0xA9, 0x22];
    var begun: Log := [] + [Event.StartString(Pos(1, 2))];
    assert begun == [Event.StartString(Pos(1, 2))];
    var told := JoinContent(begun, raw);
    assert told == begun + [Event.Content(raw)];
    assert told + [Event.EndString(Pos(1, 4))]
        == [Event.StartString(Pos(1, 2)), Event.Content([0xC3, 0xA9]), Event.EndString(Pos(1, 4))];
  }

  /** With no limits, a text without objects is told whatever it is. */
  lemma Told(cfg: Config, item: G.Item)
    requires cfg.limits == Prefixes.UNLIMITED && (item.value.Str? || item.value.EmptyArray?)
    requires G.Text(item) != [] && G.Text(item)[0] != 0xEF
    ensures Documents.Judge(cfg, G.Text(item)) == Some(G.AfterItem(cfg.needsWhitespace, G.NOTHING, item).log)
  {
    hide G.Text, G.AfterItem;
    Acceptance.AcceptsJson(cfg, G.Text(item), item);
  }

  function Accented(): (raw: G.Content)
    ensures raw == [0xC3, 0xA9] && Decode(raw) == [0xC3, 0xA9]
  {
    var raw := [0xC3, 0xA9];
    assert raw[2..] == [] && raw[..2] == raw;
    assert Elements(raw) == [StringGrammar.Verbatim(raw)] + Elements([]);
    assert Elements(raw)[1..] == [];
    assert raw + [] == raw;
    raw
  }

  lemma QuotesAt()
    ensures PosOf([0x22]) == Pos(1, 2) && PosOf([0x22, 0xC3, 0xA9, 0x22]) == Pos(1, 4)
  {
    PosAfterByte([], 0x22);
    assert [] + [0x22] == [0x22];
    var s := [0x22] + [0xC3, 0xA9];
    PosOnLine([0x22], [0xC3, 0xA9]);
    assert Scanning.CountUnits([0xC3, 0xA9]) == 1 by {
      assert [0xC3, 0xA9][1..] == [0xA9] && [0xA9][1..] == [];
    }
    PosAfterByte(s, 0x22);
    assert s + [0x22] == [0x22, 0xC3, 0xA9, 0x22];
  }

  /** An empty array among whitespace, told to a handler that asks for it. */
  lemma WhitespaceTold(cfg: Config)
    requires cfg.limits == Prefixes.UNLIMITED && cfg.needsWhitespace
    ensures Documents.Judge(cfg, [0x20, 0x5B, 0x09, 0x5D])
         == Some([Whitespace([0x20]), StartArray(Pos(1, 3)), Whitespace([0x09]), EndArray(Pos(1, 5))])
  {
    ArrayTold();
    hide G.AfterItem;
    Told(cfg, G.Item([0x20], G.EmptyArray([0x09]), []));
  }

  lemma ArrayTold()
    ensures var item := G.Item([0x20], G.EmptyArray([0x09]), []);
            && G.Text(item) == [0x20, 0x5B, 0x09, 0x5D]
            && G.AfterItem(true, G.NOTHING, item).log
               == [Whitespace([0x20]), StartArray(Pos(1, 3)), Whitespace([0x09]), EndArray(Pos(1, 5))]
  {
    BracketsAt();
    hide PosOf;
    assert [0x20] + ([0x5B] + [0x09] + [0x5D]) + [] == [0x20, 0x5B, 0x09, 0x5D];
    var a := G.Account([0x20], [Whitespace([0x20])], 0);
    assert G.Spaced(true, G.NOTHING, [0x20]) == a by {
      assert [] + [0x20] == [0x20] && [] + [Whitespace([0x20])] == [Whitespace([0x20])];
    }
    var b := G.Account([0x20, 0x5B], [Whitespace([0x20]), StartArray(Pos(1, 3))], 1);
    assert [0x20] + [LBRACKET] == [0x20, 0x5B];
    assert G.Opened(a, InArray) == b;
    var c := G.Account([0x20, 0x5B, 0x09], [Whitespace([0x20]), StartArray(Pos(1, 3)), Whitespace([0x09])], 1);
    assert G.Spaced(true, b, [0x09]) == c;
    assert [0x20, 0x5B, 0x09] + [RBRACKET] == [0x20, 0x5B, 0x09, 0x5D];
    assert G.Closed(c, InArray).log == [Whitespace([0x20]), StartArray(Pos(1, 3)), Whitespace([0x09]), EndArray(Pos(1, 5))];
  }

  lemma BracketsAt()
    ensures PosOf([0x20, 0x5B]) == Pos(1, 3) && PosOf([0x20, 0x5B, 0x09, 0x5D]) == Pos(1, 5)
  {
    PosAfterAscii([], [0x20, 0x5B]);
    PosAfterAscii([], [0x20, 0x5B, 0x09, 0x5D]);
    assert [] + [0x20, 0x5B] == [0x20, 0x5B] && [] + [0x20, 0x5B, 0x09, 0x5D] == [0x20, 0x5B, 0x09, 0x5D];
  }
}
