// Which documents are accepted, and what is told of them.
module Acceptance {
  import opened Base
  import opened Machine
  import opened StringGrammar
  import opened Grammar
  import opened Documents
  import opened Prefixes

  /** A JSON text, after an optional byte order mark, is accepted exactly if it keeps
      the limits; and then the handler is told what the text says. */
  lemma AcceptsJson(cfg: Config, doc: Bytes, item: Item)
    requires Body(doc) == Text(item)
    ensures Judge(cfg, doc)
         == if !Exceeds(|doc|, cfg.limits.documentLength) && ItemFits(cfg, item)
            then Some(AfterItem(cfg.needsWhitespace, NOTHING, item).log) else None
  {
    hide Verdict, Text, ItemFits, AfterItem;
    VerdictOnText(cfg, item);
  }

  /** Nothing else is accepted. */
  lemma AcceptsOnlyJson(cfg: Config, doc: Bytes) returns (item: Item)
    requires Judge(cfg, doc).Some?
    ensures Body(doc) == Text(item) && ItemFits(cfg, item)
  {
    hide Verdict, Text, ItemFits;
    item := TextOfAccepted(cfg, Body(doc));
  }

  // ---------- Without limits ----------

  /** Every key's text is at most `chunk` bytes long. */
  predicate KeysWithin(v: Value, chunk: nat) {
    match v
    case Array(init, last) => ItemKeysWithin(init, chunk) && KeysWithin(last.value, chunk)
    case Object(names, final) => MemberKeysWithin(names, chunk) && |Decode(final.key)| <= chunk && KeysWithin(final.item.value, chunk)
    case _ => true
  }

  predicate ItemKeysWithin(items: Items, chunk: nat) {
    items.Items? ==> ItemKeysWithin(items.init, chunk) && KeysWithin(items.last.value, chunk)
  }

  predicate MemberKeysWithin(members: Members, chunk: nat) {
    members.Members? ==>
      && MemberKeysWithin(members.init, chunk)
      && |Decode(members.last.key)| <= chunk && KeysWithin(members.last.item.value, chunk)
  }

  function Names(members: Members): seq<Bytes> {
    match members
    case NoMembers => []
    case Members(init, last) => Names(init) + [Decode(last.key)]
  }

  predicate Distinct(names: seq<Bytes>) {
    forall i, j :: 0 <= i < j < |names| ==> names[i] != names[j]
  }

  /** No object in `v` has two keys with the same text. */
  predicate NamesDistinct(v: Value) {
    match v
    case Array(init, last) => ItemNamesDistinct(init) && NamesDistinct(last.value)
    case Object(names, final) =>
      Distinct(Names(names) + [Decode(final.key)]) && MemberNamesDistinct(names) && NamesDistinct(final.item.value)
    case _ => true
  }

  predicate ItemNamesDistinct(items: Items) {
    items.Items? ==> ItemNamesDistinct(items.init) && NamesDistinct(items.last.value)
  }

  predicate MemberNamesDistinct(members: Members) {
    members.Members? ==> MemberNamesDistinct(members.init) && NamesDistinct(members.last.item.value)
  }

  lemma {:induction false} KeysAreNames(members: Members)
    ensures forall name :: name in Keys(members) <==> name in Names(members)
  {
    if members.Members? {
      KeysAreNames(members.init);
    }
  }

  lemma DistinctSnoc(names: seq<Bytes>, last: Bytes)
    ensures Distinct(names + [last]) <==> Distinct(names) && last !in names
  {
    var all := names + [last];
    if Distinct(all) {
      forall i, j | 0 <= i < j < |names| ensures names[i] != names[j] {
        assert all[i] != all[j];
      }
      forall i | 0 <= i < |names| ensures names[i] != last {
        assert all[i] != all[|names|];
      }
    }
  }

  lemma {:induction false} WithoutLimits(cfg: Config, v: Value, depth: nat)
    requires cfg.limits == UNLIMITED
    ensures Fits(cfg, v, depth) <==> KeysWithin(v, cfg.chunk) && (cfg.rejectDuplicates ==> NamesDistinct(v))
    decreases v
  {
    hide Decode, Distinct;
    match v
    case Array(init, last) =>
      ItemsWithoutLimits(cfg, init, depth + 1);
      WithoutLimits(cfg, last.value, depth + 1);
    case Object(names, final) =>
      MembersWithoutLimits(cfg, names, depth + 1);
      WithoutLimits(cfg, final.item.value, depth + 1);
      KeysAreNames(names);
      DistinctSnoc(Names(names), Decode(final.key));
    case _ =>
  }

  lemma {:induction false} ItemsWithoutLimits(cfg: Config, items: Items, depth: nat)
    requires cfg.limits == UNLIMITED
    ensures ItemsFit(cfg, items, depth) <==> ItemKeysWithin(items, cfg.chunk) && (cfg.rejectDuplicates ==> ItemNamesDistinct(items))
    decreases items
  {
    if items.Items? {
      ItemsWithoutLimits(cfg, items.init, depth);
      WithoutLimits(cfg, items.last.value, depth);
    }
  }

  lemma {:induction false} MembersWithoutLimits(cfg: Config, members: Members, depth: nat)
    requires cfg.limits == UNLIMITED
    ensures MembersFit(cfg, members, depth)
       <==> MemberKeysWithin(members, cfg.chunk)
            && (cfg.rejectDuplicates ==> MemberNamesDistinct(members) && Distinct(Names(members)))
    decreases members
  {
    hide Decode, Distinct;
    if members.Members? {
      MembersWithoutLimits(cfg, members.init, depth);
      WithoutLimits(cfg, members.last.item.value, depth);
      KeysAreNames(members.init);
      DistinctSnoc(Names(members.init), Decode(members.last.key));
    } else {
      NoNames();
    }
  }

  lemma NoNames()
    ensures Distinct([])
  {
  }

  /** With limits off, exactly the JSON texts with short enough keys are accepted;
      where repeated keys are refused, those without two equal keys in an object. */
  lemma AcceptsAllJson(cfg: Config, doc: Bytes, item: Item)
    requires cfg.limits == UNLIMITED && Body(doc) == Text(item)
    ensures Judge(cfg, doc).Some? <==> KeysWithin(item.value, cfg.chunk) && (cfg.rejectDuplicates ==> NamesDistinct(item.value))
  {
    hide Verdict, Text, AfterItem, Fits, KeysWithin, NamesDistinct;
    WithoutLimits(cfg, item.value, 0);
    VerdictOnText(cfg, item);
  }

  // ---------- Repeated keys ----------

  function Refusing(cfg: Config): Config {
    cfg.(rejectDuplicates := true)
  }

  function Allowing(cfg: Config): Config {
    cfg.(rejectDuplicates := false)
  }

  lemma {:induction false} RefusingFits(cfg: Config, v: Value, depth: nat)
    ensures Fits(Refusing(cfg), v, depth) <==> Fits(Allowing(cfg), v, depth) && NamesDistinct(v)
    decreases v
  {
    hide Decode, Distinct;
    match v
    case Array(init, last) =>
      RefusingFitsItems(cfg, init, depth + 1);
      RefusingFits(cfg, last.value, depth + 1);
    case Object(names, final) =>
      RefusingFitsMembers(cfg, names, depth + 1);
      RefusingFits(cfg, final.item.value, depth + 1);
      KeysAreNames(names);
      DistinctSnoc(Names(names), Decode(final.key));
    case _ =>
  }

  lemma {:induction false} RefusingFitsItems(cfg: Config, items: Items, depth: nat)
    ensures ItemsFit(Refusing(cfg), items, depth) <==> ItemsFit(Allowing(cfg), items, depth) && ItemNamesDistinct(items)
    decreases items
  {
    if items.Items? {
      RefusingFitsItems(cfg, items.init, depth);
      RefusingFits(cfg, items.last.value, depth);
    }
  }

  lemma {:induction false} RefusingFitsMembers(cfg: Config, members: Members, depth: nat)
    ensures MembersFit(Refusing(cfg), members, depth)
       <==> MembersFit(Allowing(cfg), members, depth) && MemberNamesDistinct(members) && Distinct(Names(members))
    decreases members
  {
    hide Decode, Distinct;
    if members.Members? {
      RefusingFitsMembers(cfg, members.init, depth);
      RefusingFits(cfg, members.last.item.value, depth);
      KeysAreNames(members.init);
      DistinctSnoc(Names(members.init), Decode(members.last.key));
    } else {
      NoNames();
    }
  }

  /** Whatever the limits, asking for repeated keys to be refused refuses the
      documents that have them, and no others. */
  lemma OnlyDuplicatesRefused(cfg: Config, doc: Bytes, item: Item)
    requires Body(doc) == Text(item)
    ensures Judge(Refusing(cfg), doc).Some? <==> Judge(Allowing(cfg), doc).Some? && NamesDistinct(item.value)
  {
    hide Judge, Text, Fits, NamesDistinct, AfterItem;
    RefusingFits(cfg, item.value, 0);
    AcceptsJson(Refusing(cfg), doc, item);
    AcceptsJson(Allowing(cfg), doc, item);
  }
}
