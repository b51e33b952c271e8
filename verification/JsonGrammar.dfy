/**
The texts that the JSON parser accepts (sections 2 to 7 of RFC 8259): a concrete syntax
that records every choice a writer has (white space, spellings of characters), printed to
bytes. Reading is the inverse of printing, and nothing else is read.
 */
module JsonGrammar {
  import opened Bytes
  import opened Utf8
  import opened JsonString
  import opened JsonText

  /** A value as written; `lead` is the white space in front of it. */
  datatype Doc =
    | NullDoc(lead: seq<byte>)
    | BoolDoc(lead: seq<byte>, b: bool)
    | NumberDoc(lead: seq<byte>, token: seq<byte>)
    | TextDoc(lead: seq<byte>, text: seq<Spelled>)
    | EmptyList(lead: seq<byte>, gap: seq<byte>)
    | ListDoc(lead: seq<byte>, items: Docs)
    | EmptyMap(lead: seq<byte>, gap: seq<byte>)
    | MapDoc(lead: seq<byte>, members: MemberDocs)

  /** Items, each with the white space behind it. */
  datatype Docs = LastDoc(doc: Doc, after: seq<byte>) | MoreDocs(doc: Doc, after: seq<byte>, next: Docs)

  /** A key with the white space around it, and the value with the white space behind it. */
  datatype MemberDoc = MemberDoc(lead: seq<byte>, key: seq<Spelled>, gap: seq<byte>, doc: Doc, after: seq<byte>)
  datatype MemberDocs = LastMember(member: MemberDoc) | MoreMembers(member: MemberDoc, next: MemberDocs)

  // ---------- printing ----------

  function Quoted(text: seq<Spelled>): (s: seq<byte>)
    ensures s != [] && s[0] == '"' as byte
  {
    ['"' as byte] + (Written(text) + ['"' as byte])
  }

  /** A value without the white space in front of it. */
  function Core(doc: Doc): seq<byte>
    decreases doc, 0
  {
    match doc
    case NullDoc(_) => ['n' as byte, 'u' as byte, 'l' as byte, 'l' as byte]
    case BoolDoc(_, b) => if b then ['t' as byte, 'r' as byte, 'u' as byte, 'e' as byte]
                         else ['f' as byte, 'a' as byte, 'l' as byte, 's' as byte, 'e' as byte]
    case NumberDoc(_, token) => token
    case TextDoc(_, text) => Quoted(text)
    case EmptyList(_, gap) => ['[' as byte] + (gap + [']' as byte])
    case ListDoc(_, items) => ['[' as byte] + PrintItems(items)
    case EmptyMap(_, gap) => ['{' as byte] + (gap + ['}' as byte])
    case MapDoc(_, members) => ['{' as byte] + PrintMembers(members)
  }

  function Print(doc: Doc): seq<byte>
    decreases doc, 1
  {
    doc.lead + Core(doc)
  }

  function PrintItems(items: Docs): seq<byte> {
    match items
    case LastDoc(doc, after) => Print(doc) + (after + [']' as byte])
    case MoreDocs(doc, after, next) => Print(doc) + (after + ([',' as byte] + PrintItems(next)))
  }

  function PrintMember(m: MemberDoc): seq<byte> {
    m.lead + (Quoted(m.key) + (m.gap + ([':' as byte] + Print(m.doc))))
  }

  function PrintMembers(members: MemberDocs): seq<byte> {
    match members
    case LastMember(m) => PrintMember(m) + (m.after + ['}' as byte])
    case MoreMembers(m, next) => PrintMember(m) + (m.after + ([',' as byte] + PrintMembers(next)))
  }

  // ---------- meaning ----------

  predicate LegalText(text: seq<Spelled>) {
    Spelt(text) && |Meant(text)| <= 16_777_216
  }

  function Meaning(doc: Doc): Json
    requires Legal(doc)
  {
    match doc
    case NullDoc(_) => Null
    case BoolDoc(_, b) => Bool(b)
    case NumberDoc(_, token) => Number(token)
    case TextDoc(_, text) => Text(Meant(text))
    case EmptyList(_, _) => List([])
    case ListDoc(_, items) => List(MeaningItems(items))
    case EmptyMap(_, _) => Map([])
    case MapDoc(_, members) => Map(MeaningMembers(members))
  }

  function MeaningItems(items: Docs): seq<Json>
    requires LegalItems(items)
  {
    match items
    case LastDoc(doc, _) => [Meaning(doc)]
    case MoreDocs(doc, _, next) => [Meaning(doc)] + MeaningItems(next)
  }

  function MeaningMember(m: MemberDoc): Member
    requires LegalMember(m)
  {
    Member(Meant(m.key), Meaning(m.doc))
  }

  function MeaningMembers(members: MemberDocs): seq<Member>
    requires LegalMembers(members)
  {
    match members
    case LastMember(m) => [MeaningMember(m)]
    case MoreMembers(m, next) => [MeaningMember(m)] + MeaningMembers(next)
  }

  // ---------- legality ----------

  predicate Blank(s: seq<byte>) {
    forall i :: 0 <= i < |s| ==> s[i] as char in {' ', '\t', '\r', '\n'}
  }

  /** White space where it may stand, legal strings, and numbers that begin like numbers. */
  predicate Legal(doc: Doc) {
    && Blank(doc.lead)
    && match doc
       case NullDoc(_) => true
       case BoolDoc(_, _) => true
       case NumberDoc(_, token) => token != [] && (token[0] == '-' as byte || '0' as byte <= token[0] <= '9' as byte)
       case TextDoc(_, text) => LegalText(text)
       case EmptyList(_, gap) => Blank(gap)
       case ListDoc(_, items) => LegalItems(items)
       case EmptyMap(_, gap) => Blank(gap)
       case MapDoc(_, members) => LegalMembers(members)
  }

  predicate LegalItems(items: Docs) {
    && Legal(items.doc) && Blank(items.after)
    && (items.MoreDocs? ==> LegalItems(items.next))
  }

  predicate LegalMember(m: MemberDoc) {
    Blank(m.lead) && LegalText(m.key) && Blank(m.gap) && Legal(m.doc) && Blank(m.after)
  }

  predicate LegalMembers(members: MemberDocs) {
    LegalMember(members.member) && (members.MoreMembers? ==> LegalMembers(members.next))
  }

  /** What follows the first item or member, before the rest of the stream. */
  function TailItems(items: Docs): seq<byte> {
    match items
    case LastDoc(_, after) => after + [']' as byte]
    case MoreDocs(_, after, next) => after + ([',' as byte] + PrintItems(next))
  }

  function TailMembers(members: MemberDocs): seq<byte> {
    match members
    case LastMember(m) => m.after + ['}' as byte]
    case MoreMembers(m, next) => m.after + ([',' as byte] + PrintMembers(next))
  }

  /** The look-ahead behind `null` meets the end, a space, a control character or punctuation. */
  predicate MayFollowNull(lex: Lexer, sure: bool, rest: seq<byte>) {
    || !sure || !Decode(rest).Char?
    || var c := Decode(rest).c;
       || c <= 32 || c == 127 || (c >= 128 && lex.space(c))
       || (c < 128 && c as char in {'#', '(', ')', ',', '.', ';', '[', ']', '{', '}'})
  }

  lemma MayFollowIsReserved(lex: Lexer, sure: bool, rest: seq<byte>)
    ensures MayFollowNull(lex, sure, rest) <==> EndsNull(lex, sure, rest)
  {
    hide Decode;
  }

  /** Every number and `null` ends where it is meant to, with `rest` behind the value. */
  predicate Ends(lex: Lexer, sure: bool, doc: Doc, rest: seq<byte>) {
    match doc
    case NullDoc(_) => MayFollowNull(lex, sure, rest)
    case NumberDoc(_, token) => lex.number(token + rest) == |token|
    case ListDoc(_, items) => EndsItems(lex, sure, items, rest)
    case MapDoc(_, members) => EndsMembers(lex, sure, members, rest)
    case _ => true
  }

  predicate EndsItems(lex: Lexer, sure: bool, items: Docs, rest: seq<byte>) {
    && Ends(lex, sure, items.doc, TailItems(items) + rest)
    && (items.MoreDocs? ==> EndsItems(lex, sure, items.next, rest))
  }

  predicate EndsMembers(lex: Lexer, sure: bool, members: MemberDocs, rest: seq<byte>) {
    && Ends(lex, sure, members.member.doc, TailMembers(members) + rest)
    && (members.MoreMembers? ==> EndsMembers(lex, sure, members.next, rest))
  }

  // ---------- white space ----------

  lemma {:induction false} TrimBlank(lead: seq<byte>, s: seq<byte>)
    requires Blank(lead) && (s == [] || !IsSpace(s[0]))
    ensures Trim(lead + s) == s
  {
    if lead == [] {
      assert lead + s == s;
    } else {
      assert (lead + s)[1..] == lead[1..] + s;
      TrimBlank(lead[1..], s);
    }
  }

  /** The white space that is skipped. */
  lemma {:induction false} TrimTakesBlank(s: seq<byte>) returns (lead: seq<byte>)
    ensures Blank(lead) && s == lead + Trim(s)
  {
    if s == [] || !IsSpace(s[0]) {
      lead := [];
    } else {
      var l := TrimTakesBlank(s[1..]);
      lead := [s[0]] + l;
    }
  }

  // ---------- what is printed is read ----------

  lemma TextIsRead(text: seq<Spelled>, rest: seq<byte>)
    requires LegalText(text)
    ensures Str(Quoted(text) + rest) == Got(Meant(text), rest)
  {
    var s := Quoted(text) + rest;
    assert s == [QUOTE] + (Written(text) + [QUOTE] + rest);
    StrIffWritten(s, Meant(text), rest);
  }

  /** The first byte of a value is not a space and closes nothing. */
  lemma CoreStarts(doc: Doc)
    requires Legal(doc)
    ensures Core(doc) != [] && !IsSpace(Core(doc)[0])
    ensures Core(doc)[0] != LIST_CLOSE && Core(doc)[0] != MAP_CLOSE
  {
    hide Quoted, LegalText, LegalItems, LegalMembers, PrintItems, PrintMembers;
  }

  lemma TrimPrinted(doc: Doc, rest: seq<byte>)
    requires Legal(doc)
    ensures Trim(Print(doc) + rest) == Core(doc) + rest
  {
    CoreStarts(doc);
    hide Core;
    assert Print(doc) + rest == doc.lead + (Core(doc) + rest);
    TrimBlank(doc.lead, Core(doc) + rest);
  }

  /** White space in front of a value makes no difference. */
  lemma TrimmedReadsTheSame(lex: Lexer, sure: bool, s: seq<byte>)
    ensures ValueAt(lex, sure, Trim(s)) == ValueAt(lex, sure, s)
    ensures forall done :: Items(lex, sure, Trim(s), done) == Items(lex, sure, s, done)
  {
    assert Trim(Trim(s)) == Trim(s);
    hide Trim;
  }

  lemma Assoc(a: seq<byte>, b: seq<byte>, c: seq<byte>)
    ensures a + b + c == a + (b + c)
  {
  }

  lemma TailOfItems(items: Docs, rest: seq<byte>)
    ensures PrintItems(items) + rest == Print(items.doc) + (TailItems(items) + rest)
    ensures items.LastDoc? ==> TailItems(items) + rest == items.after + ([LIST_CLOSE] + rest)
    ensures items.MoreDocs? ==> TailItems(items) + rest == items.after + ([COMMA] + (PrintItems(items.next) + rest))
  {
    hide Print;
    Assoc(Print(items.doc), TailItems(items), rest);
    if items.LastDoc? {
      Assoc(items.after, [LIST_CLOSE], rest);
    } else {
      hide PrintItems;
      Assoc(items.after, [COMMA] + PrintItems(items.next), rest);
      Assoc([COMMA], PrintItems(items.next), rest);
    }
  }

  lemma TailOfMembers(members: MemberDocs, rest: seq<byte>)
    ensures PrintMembers(members) + rest == PrintMember(members.member) + (TailMembers(members) + rest)
    ensures members.LastMember? ==> TailMembers(members) + rest == members.member.after + ([MAP_CLOSE] + rest)
    ensures members.MoreMembers? ==>
              TailMembers(members) + rest == members.member.after + ([COMMA] + (PrintMembers(members.next) + rest))
  {
    hide PrintMember;
    var m := members.member;
    Assoc(PrintMember(m), TailMembers(members), rest);
    if members.LastMember? {
      Assoc(m.after, [MAP_CLOSE], rest);
    } else {
      hide PrintMembers;
      Assoc(m.after, [COMMA] + PrintMembers(members.next), rest);
      Assoc([COMMA], PrintMembers(members.next), rest);
    }
  }

  lemma {:induction false} PrintedIsRead(lex: Lexer, sure: bool, doc: Doc, rest: seq<byte>)
    requires Legal(doc) && Ends(lex, sure, doc, rest)
    ensures ValueAt(lex, sure, Print(doc) + rest) == Got(Meaning(doc), rest)
    decreases doc
  {
    var t := Core(doc) + rest;
    TrimPrinted(doc, rest);
    if doc.ListDoc? || doc.MapDoc? {
      assert t[0] == if doc.ListDoc? then LIST_OPEN else MAP_OPEN;
      hide ListAt, MapAt, Trim, Print;
      if doc.ListDoc? {
        ListIsRead(lex, sure, doc.items, rest);
        Assoc([LIST_OPEN], PrintItems(doc.items), rest);
      } else {
        MapIsRead(lex, sure, doc.members, rest);
        Assoc([MAP_OPEN], PrintMembers(doc.members), rest);
      }
    } else {
      hide *;
      LeafIsRead(lex, sure, doc, rest);
    }
  }

  lemma LeafIsRead(lex: Lexer, sure: bool, doc: Doc, rest: seq<byte>)
    requires Legal(doc) && Ends(lex, sure, doc, rest) && !doc.ListDoc? && !doc.MapDoc?
    ensures ValueAt(lex, sure, Print(doc) + rest) == Got(Meaning(doc), rest)
  {
    hide Trim, Print, Items, Members, Str, Quoted, EndsNull, ListAt, MapAt, MayFollowNull;
    var t := Core(doc) + rest;
    MayFollowIsReserved(lex, sure, rest);
    TrimPrinted(doc, rest);
    if doc.TextDoc? {
      TextIsRead(doc.text, rest);
    } else if doc.EmptyList? {
      EmptyListIsRead(lex, sure, doc.gap, rest);
    } else if doc.EmptyMap? {
      EmptyMapIsRead(lex, sure, doc.gap, rest);
    } else {
      assert t[|Core(doc)|..] == rest && t[..|Core(doc)|] == Core(doc);
    }
  }

  lemma EmptyListIsRead(lex: Lexer, sure: bool, gap: seq<byte>, rest: seq<byte>)
    requires Blank(gap)
    ensures ListAt(lex, sure, [LIST_OPEN] + (gap + [LIST_CLOSE]) + rest) == Got(List([]), rest)
  {
    hide Trim, Items;
    EmptyIsRead(gap, LIST_OPEN, LIST_CLOSE, rest);
  }

  lemma EmptyMapIsRead(lex: Lexer, sure: bool, gap: seq<byte>, rest: seq<byte>)
    requires Blank(gap)
    ensures MapAt(lex, sure, [MAP_OPEN] + (gap + [MAP_CLOSE]) + rest) == Got(Map([]), rest)
  {
    hide Trim, Members;
    EmptyIsRead(gap, MAP_OPEN, MAP_CLOSE, rest);
  }

  lemma EmptyIsRead(gap: seq<byte>, open: byte, close: byte, rest: seq<byte>)
    requires Blank(gap) && !IsSpace(close)
    ensures var t := [open] + (gap + [close]) + rest; Trim(t[1..]) == [close] + rest
    ensures ([close] + rest)[1..] == rest
  {
    assert ([open] + (gap + [close]) + rest)[1..] == gap + ([close] + rest);
    TrimBlank(gap, [close] + rest);
  }

  lemma {:induction false} ListIsRead(lex: Lexer, sure: bool, items: Docs, rest: seq<byte>)
    requires LegalItems(items) && EndsItems(lex, sure, items, rest)
    ensures ListAt(lex, sure, [LIST_OPEN] + (PrintItems(items) + rest)) == Got(List(MeaningItems(items)), rest)
    decreases items, 1
  {
    hide ValueAt, Items, PrintItems, Trim, Print, Core, TailItems;
    var t := [LIST_OPEN] + (PrintItems(items) + rest);
    assert t[1..] == PrintItems(items) + rest;
    ItemsAreRead(lex, sure, items, rest, []);
    assert [] + MeaningItems(items) == MeaningItems(items);
    TailOfItems(items, rest);
    TrimPrinted(items.doc, TailItems(items) + rest);
    CoreStarts(items.doc);
    TrimmedReadsTheSame(lex, sure, t[1..]);
  }

  lemma {:induction false} MapIsRead(lex: Lexer, sure: bool, members: MemberDocs, rest: seq<byte>)
    requires LegalMembers(members) && EndsMembers(lex, sure, members, rest)
    ensures MapAt(lex, sure, [MAP_OPEN] + (PrintMembers(members) + rest)) == Got(Map(MeaningMembers(members)), rest)
    decreases members, 1
  {
    hide Members, PrintMembers, Trim;
    var t := [MAP_OPEN] + (PrintMembers(members) + rest);
    assert t[1..] == PrintMembers(members) + rest;
    MembersAreRead(lex, sure, members, rest, []);
    assert [] + MeaningMembers(members) == MeaningMembers(members);
  }

  lemma {:induction false} ItemsAreRead(lex: Lexer, sure: bool, items: Docs, rest: seq<byte>, done: seq<Json>)
    requires LegalItems(items) && EndsItems(lex, sure, items, rest)
    ensures Items(lex, sure, PrintItems(items) + rest, done) == Got(List(done + MeaningItems(items)), rest)
    decreases items, 0
  {
    hide ValueAt, Print, PrintItems, TailItems, Trim;
    TailOfItems(items, rest);
    PrintedIsRead(lex, sure, items.doc, TailItems(items) + rest);
    var more := done + [Meaning(items.doc)];
    if items.LastDoc? {
      TrimBlank(items.after, [LIST_CLOSE] + rest);
      assert ([LIST_CLOSE] + rest)[1..] == rest;
    } else {
      var next := PrintItems(items.next) + rest;
      TrimBlank(items.after, [COMMA] + next);
      assert ([COMMA] + next)[1..] == next;
      ItemsAreRead(lex, sure, items.next, rest, more);
      assert more + MeaningItems(items.next) == done + MeaningItems(items);
    }
  }

  /** A member with the white space in front of it skipped. */
  lemma TrimMember(m: MemberDoc, rest: seq<byte>)
    requires LegalMember(m)
    ensures Trim(PrintMember(m) + rest) == Quoted(m.key) + (m.gap + ([COLON] + (Print(m.doc) + rest)))
  {
    hide Quoted, Print, LegalText, Legal;
    var body := Quoted(m.key) + (m.gap + ([COLON] + (Print(m.doc) + rest)));
    assert PrintMember(m) + rest == m.lead + body;
    TrimBlank(m.lead, body);
  }

  lemma {:induction false} MemberIsRead(lex: Lexer, sure: bool, m: MemberDoc, rest: seq<byte>)
    requires LegalMember(m) && Ends(lex, sure, m.doc, rest)
    ensures MemberAt(lex, sure, Trim(PrintMember(m) + rest)) == Got(MeaningMember(m), rest)
    ensures Trim(PrintMember(m) + rest) != [] && Trim(PrintMember(m) + rest)[0] == QUOTE
    decreases m
  {
    hide ValueAt, Print, Trim, Str, Quoted, PrintMember;
    TrimMember(m, rest);
    var value := Print(m.doc) + rest;
    TextIsRead(m.key, m.gap + ([COLON] + value));
    TrimBlank(m.gap, [COLON] + value);
    assert ([COLON] + value)[1..] == value;
    TrimmedReadsTheSame(lex, sure, value);
    PrintedIsRead(lex, sure, m.doc, rest);
  }

  lemma {:induction false} MembersAreRead(lex: Lexer, sure: bool, members: MemberDocs, rest: seq<byte>,
                                          done: seq<Member>)
    requires LegalMembers(members) && EndsMembers(lex, sure, members, rest)
    ensures Trim(PrintMembers(members) + rest) != [] && Trim(PrintMembers(members) + rest)[0] == QUOTE
    ensures Members(lex, sure, Trim(PrintMembers(members) + rest), done) ==
            Got(Map(done + MeaningMembers(members)), rest)
    decreases members, 0
  {
    hide MemberAt, PrintMember, PrintMembers, TailMembers, Trim;
    var m := members.member;
    TailOfMembers(members, rest);
    MemberIsRead(lex, sure, m, TailMembers(members) + rest);
    var more := done + [MeaningMember(m)];
    if members.LastMember? {
      TrimBlank(m.after, [MAP_CLOSE] + rest);
      assert ([MAP_CLOSE] + rest)[1..] == rest;
    } else {
      var next := PrintMembers(members.next) + rest;
      TrimBlank(m.after, [COMMA] + next);
      assert ([COMMA] + next)[1..] == next;
      MembersAreRead(lex, sure, members.next, rest, more);
      assert more + MeaningMembers(members.next) == done + MeaningMembers(members);
    }
  }

  // ---------- what is read was printed ----------

  lemma TextWasWritten(t: seq<byte>) returns (text: seq<Spelled>)
    requires Str(t).Got?
    ensures LegalText(text) && Meant(text) == Str(t).value && t == Quoted(text) + Str(t).rest
  {
    var v, rest := Str(t).value, Str(t).rest;
    StrIffWritten(t, v, rest);
    text :| Spelt(text) && t == [QUOTE] + (Written(text) + [QUOTE] + rest) && v == Meant(text);
    assert t == Quoted(text) + rest;
  }

  /** White space, one byte, and what is behind it. */
  lemma TrimToByte(s: seq<byte>) returns (gap: seq<byte>)
    requires Trim(s) != []
    ensures Blank(gap) && s == gap + ([Trim(s)[0]] + Trim(s)[1..])
  {
    gap := TrimTakesBlank(s);
    hide Trim;
    assert [Trim(s)[0]] + Trim(s)[1..] == Trim(s);
  }

  /** Values that are not lists or objects. */
  lemma LeafWasPrinted(lex: Lexer, sure: bool, s: seq<byte>) returns (doc: Doc)
    requires ValueAt(lex, sure, s).Got? && Trim(s) != [] && Trim(s)[0] != LIST_OPEN && Trim(s)[0] != MAP_OPEN
    ensures Legal(doc) && Meaning(doc) == ValueAt(lex, sure, s).value
    ensures Ends(lex, sure, doc, ValueAt(lex, sure, s).rest) && s == Print(doc) + ValueAt(lex, sure, s).rest
  {
    hide Str, EndsNull, ListAt, MapAt, Quoted, MayFollowNull, LegalText, LegalItems, LegalMembers, MeaningItems,
      MeaningMembers, PrintItems, PrintMembers, EndsItems, EndsMembers, Meant, Blank, Trim;
    var r := ValueAt(lex, sure, s);
    MayFollowIsReserved(lex, sure, r.rest);
    var t := Trim(s);
    var lead := TrimTakesBlank(s);
    if t[0] == QUOTE {
      var text := TextWasWritten(t);
      doc := TextDoc(lead, text);
    } else if StartsNumber(t[0]) {
      doc := NumberDoc(lead, t[..lex.number(t)]);
      assert t[..lex.number(t)] + r.rest == t;
    } else if t[0] == 0x74 || t[0] == 0x66 {
      doc := BoolDoc(lead, t[0] == 0x74);
    } else {
      doc := NullDoc(lead);
    }
    assert t == Core(doc) + r.rest;
    assert s == lead + Core(doc) + r.rest;
  }

  lemma ValueIsNested(lex: Lexer, sure: bool, s: seq<byte>)
    ensures var t := Trim(s);
            && (t != [] && t[0] == LIST_OPEN ==> ValueAt(lex, sure, s) == ListAt(lex, sure, t))
            && (t != [] && t[0] == MAP_OPEN ==> ValueAt(lex, sure, s) == MapAt(lex, sure, t))
  {
    hide Trim;
  }

  /** White space, a bracket, what is inside it and what follows. */
  lemma OpenedBy(lead: seq<byte>, open: byte, body: seq<byte>, rest: seq<byte>)
    ensures lead + ([open] + (body + rest)) == lead + ([open] + body) + rest
  {
  }

  lemma {:induction false} ListWasPrinted(lex: Lexer, sure: bool, s: seq<byte>) returns (doc: Doc)
    requires ValueAt(lex, sure, s).Got? && Trim(s) != [] && Trim(s)[0] == LIST_OPEN
    ensures Legal(doc) && Meaning(doc) == ValueAt(lex, sure, s).value
    ensures Ends(lex, sure, doc, ValueAt(lex, sure, s).rest) && s == Print(doc) + ValueAt(lex, sure, s).rest
    decreases |s|, 0
  {
    hide Str, EndsNull, MapAt, Items, PrintItems, Quoted, ValueAt, Trim, MayFollowNull;
    ValueIsNested(lex, sure, s);
    var r := ValueAt(lex, sure, s);
    var tail := Trim(s)[1..];
    var lead := TrimToByte(s);
    var body;
    if Trim(tail)[0] == LIST_CLOSE {
      var gap := TrimToByte(tail);
      doc, body := EmptyList(lead, gap), gap + [LIST_CLOSE];
      Assoc(gap, [LIST_CLOSE], r.rest);
    } else {
      TrimmedReadsTheSame(lex, sure, tail);
      var items := ItemsWerePrinted(lex, sure, tail, []);
      doc, body := ListDoc(lead, items), PrintItems(items);
      assert [] + MeaningItems(items) == MeaningItems(items);
    }
    OpenedBy(lead, LIST_OPEN, body, r.rest);
  }

  lemma {:induction false} MapWasPrinted(lex: Lexer, sure: bool, s: seq<byte>) returns (doc: Doc)
    requires ValueAt(lex, sure, s).Got? && Trim(s) != [] && Trim(s)[0] == MAP_OPEN
    ensures Legal(doc) && Meaning(doc) == ValueAt(lex, sure, s).value
    ensures Ends(lex, sure, doc, ValueAt(lex, sure, s).rest) && s == Print(doc) + ValueAt(lex, sure, s).rest
    decreases |s|, 0
  {
    hide Str, EndsNull, ListAt, Members, PrintMembers, Quoted, ValueAt, Trim, MayFollowNull;
    ValueIsNested(lex, sure, s);
    var r := ValueAt(lex, sure, s);
    var tail := Trim(s)[1..];
    var lead := TrimToByte(s);
    var body;
    if Trim(tail)[0] == MAP_CLOSE {
      var gap := TrimToByte(tail);
      doc, body := EmptyMap(lead, gap), gap + [MAP_CLOSE];
      Assoc(gap, [MAP_CLOSE], r.rest);
    } else {
      var members := MembersWerePrinted(lex, sure, tail, []);
      doc, body := MapDoc(lead, members), PrintMembers(members);
      assert [] + MeaningMembers(members) == MeaningMembers(members);
    }
    OpenedBy(lead, MAP_OPEN, body, r.rest);
  }

  lemma {:induction false} ReadWasPrinted(lex: Lexer, sure: bool, s: seq<byte>) returns (doc: Doc)
    requires ValueAt(lex, sure, s).Got?
    ensures Legal(doc) && Meaning(doc) == ValueAt(lex, sure, s).value
    ensures Ends(lex, sure, doc, ValueAt(lex, sure, s).rest) && s == Print(doc) + ValueAt(lex, sure, s).rest
    decreases |s|, 1
  {
    var t := Trim(s);
    assert t != [];
    hide *;
    if t[0] == LIST_OPEN {
      doc := ListWasPrinted(lex, sure, s);
    } else if t[0] == MAP_OPEN {
      doc := MapWasPrinted(lex, sure, s);
    } else {
      doc := LeafWasPrinted(lex, sure, s);
    }
  }

  lemma {:induction false} ItemsWerePrinted(lex: Lexer, sure: bool, s: seq<byte>, done: seq<Json>) returns (items: Docs)
    requires Items(lex, sure, s, done).Got?
    ensures var r := Items(lex, sure, s, done);
            && LegalItems(items) && r.value == List(done + MeaningItems(items))
            && EndsItems(lex, sure, items, r.rest) && s == PrintItems(items) + r.rest
    decreases |s|, 2
  {
    hide ValueAt, Trim, Print, PrintItems, TailItems;
    var r := Items(lex, sure, s, done);
    var v := ValueAt(lex, sure, s);
    var doc := ReadWasPrinted(lex, sure, s);
    var u := Trim(v.rest);
    var after := TrimToByte(v.rest);
    if u[0] == LIST_CLOSE {
      items := LastDoc(doc, after);
    } else {
      var next := ItemsWerePrinted(lex, sure, u[1..], done + [v.value]);
      items := MoreDocs(doc, after, next);
      assert done + [v.value] + MeaningItems(next) == done + MeaningItems(items);
    }
    TailOfItems(items, r.rest);
  }

  lemma {:induction false} MemberWasPrinted(lex: Lexer, sure: bool, s: seq<byte>) returns (m: MemberDoc)
    requires MemberAt(lex, sure, Trim(s)).Got?
    ensures var r := MemberAt(lex, sure, Trim(s));
            && LegalMember(m) && m.after == [] && r.value == MeaningMember(m)
            && Ends(lex, sure, m.doc, r.rest) && s == PrintMember(m) + r.rest
    decreases |s|, 2
  {
    hide ValueAt, Trim, Print, Str, Quoted;
    var r := MemberAt(lex, sure, Trim(s));
    var lead := TrimTakesBlank(s);
    var key := TextWasWritten(Trim(s));
    var behind := Str(Trim(s)).rest;
    var gap := TrimToByte(behind);
    var u := Trim(behind);
    TrimmedReadsTheSame(lex, sure, u[1..]);
    var doc := ReadWasPrinted(lex, sure, u[1..]);
    m := MemberDoc(lead, key, gap, doc, []);
    assert s == lead + (Quoted(key) + (gap + ([COLON] + (Print(doc) + r.rest))));
    assert PrintMember(m) + r.rest == lead + (Quoted(key) + (gap + ([COLON] + (Print(doc) + r.rest))));
  }

  lemma {:induction false} MembersWerePrinted(lex: Lexer, sure: bool, s: seq<byte>, done: seq<Member>)
      returns (members: MemberDocs)
    requires Members(lex, sure, Trim(s), done).Got?
    ensures var r := Members(lex, sure, Trim(s), done);
            && LegalMembers(members) && r.value == Map(done + MeaningMembers(members))
            && EndsMembers(lex, sure, members, r.rest) && s == PrintMembers(members) + r.rest
    decreases |s|, 3
  {
    hide MemberAt, Trim, PrintMembers, TailMembers;
    var r := Members(lex, sure, Trim(s), done);
    var first := MemberAt(lex, sure, Trim(s));
    var bare := MemberWasPrinted(lex, sure, s);
    var u := Trim(first.rest);
    var after := TrimToByte(first.rest);
    var m := bare.(after := after);
    assert PrintMember(m) == PrintMember(bare);
    hide PrintMember;
    if u[0] == MAP_CLOSE {
      members := LastMember(m);
    } else {
      var next := MembersWerePrinted(lex, sure, u[1..], done + [first.value]);
      members := MoreMembers(m, next);
      assert done + [first.value] + MeaningMembers(next) == done + MeaningMembers(members);
    }
    TailOfMembers(members, r.rest);
  }

  // ---------- the main results ----------

  /** The value stands, in some legal writing of it, in front of `rest`. */
  ghost predicate PrintedAs(lex: Lexer, sure: bool, s: seq<byte>, v: Json, rest: seq<byte>) {
    exists doc :: Legal(doc) && Ends(lex, sure, doc, rest) && Meaning(doc) == v && s == Print(doc) + rest
  }

  /** The parser reads exactly the legal writings of a value, and leaves what follows them. */
  lemma ReadIffPrinted(lex: Lexer, sure: bool, s: seq<byte>, v: Json, rest: seq<byte>)
    ensures ValueAt(lex, sure, s) == Got(v, rest) <==> PrintedAs(lex, sure, s, v, rest)
  {
    if ValueAt(lex, sure, s) == Got(v, rest) {
      var doc := ReadWasPrinted(lex, sure, s);
    }
    if PrintedAs(lex, sure, s, v, rest) {
      var doc :| Legal(doc) && Ends(lex, sure, doc, rest) && Meaning(doc) == v && s == Print(doc) + rest;
      PrintedIsRead(lex, sure, doc, rest);
    }
  }

  /** The end of the stream, or a byte that may follow a value inside another. */
  predicate Follows(rest: seq<byte>) {
    rest == [] || IsSpace(rest[0]) || rest[0] == COMMA || rest[0] == LIST_CLOSE || rest[0] == MAP_CLOSE
  }

  /** A number token that the number lexer reads whole wherever a value may end. */
  ghost predicate WholeNumber(lex: Lexer, token: seq<byte>) {
    forall rest :: Follows(rest) ==> lex.number(token + rest) == |token|
  }

  ghost predicate WholeNumbers(lex: Lexer, doc: Doc) {
    match doc
    case NumberDoc(_, token) => WholeNumber(lex, token)
    case ListDoc(_, items) => WholeNumbersInItems(lex, items)
    case MapDoc(_, members) => WholeNumbersInMembers(lex, members)
    case _ => true
  }

  ghost predicate WholeNumbersInItems(lex: Lexer, items: Docs) {
    WholeNumbers(lex, items.doc) && (items.MoreDocs? ==> WholeNumbersInItems(lex, items.next))
  }

  ghost predicate WholeNumbersInMembers(lex: Lexer, members: MemberDocs) {
    WholeNumbers(lex, members.member.doc) && (members.MoreMembers? ==> WholeNumbersInMembers(lex, members.next))
  }

  lemma FollowsEndsNull(lex: Lexer, sure: bool, rest: seq<byte>)
    requires Follows(rest)
    ensures EndsNull(lex, sure, rest)
  {
  }

  lemma BlankFollows(after: seq<byte>, rest: seq<byte>)
    requires Blank(after) && Follows(rest)
    ensures Follows(after + rest)
  {
    assert after == [] ==> after + rest == rest;
  }

  lemma {:induction false} LegalEnds(lex: Lexer, sure: bool, doc: Doc, rest: seq<byte>)
    requires Legal(doc) && WholeNumbers(lex, doc) && Follows(rest)
    ensures Ends(lex, sure, doc, rest)
    decreases doc
  {
    hide EndsNull, Follows, LegalText, Blank, MayFollowNull;
    MayFollowIsReserved(lex, sure, rest);
    match doc
    case NullDoc(_) => FollowsEndsNull(lex, sure, rest);
    case ListDoc(_, items) => LegalItemsEnd(lex, sure, items, rest);
    case MapDoc(_, members) => LegalMembersEnd(lex, sure, members, rest);
    case _ =>
  }

  lemma {:induction false} LegalItemsEnd(lex: Lexer, sure: bool, items: Docs, rest: seq<byte>)
    requires LegalItems(items) && WholeNumbersInItems(lex, items)
    ensures EndsItems(lex, sure, items, rest)
    decreases items
  {
    hide PrintItems, Legal, Blank;
    TailOfItems(items, rest);
    if items.LastDoc? {
      BlankFollows(items.after, [LIST_CLOSE] + rest);
    } else {
      BlankFollows(items.after, [COMMA] + (PrintItems(items.next) + rest));
      LegalItemsEnd(lex, sure, items.next, rest);
    }
    hide TailItems;
    LegalEnds(lex, sure, items.doc, TailItems(items) + rest);
  }

  lemma {:induction false} LegalMembersEnd(lex: Lexer, sure: bool, members: MemberDocs, rest: seq<byte>)
    requires LegalMembers(members) && WholeNumbersInMembers(lex, members)
    ensures EndsMembers(lex, sure, members, rest)
    decreases members
  {
    hide PrintMembers, Legal, Blank;
    TailOfMembers(members, rest);
    var m := members.member;
    if members.LastMember? {
      BlankFollows(m.after, [MAP_CLOSE] + rest);
    } else {
      BlankFollows(m.after, [COMMA] + (PrintMembers(members.next) + rest));
      LegalMembersEnd(lex, sure, members.next, rest);
    }
    hide TailMembers;
    LegalEnds(lex, sure, m.doc, TailMembers(members) + rest);
  }

  /**
  Reading undoes printing: with any white space, any spelling of the characters and any
  nesting, the value printed is the value read.
   */
  lemma PrintThenRead(lex: Lexer, sure: bool, doc: Doc, rest: seq<byte>)
    requires Legal(doc) && WholeNumbers(lex, doc) && Follows(rest)
    ensures ValueAt(lex, sure, Print(doc) + rest) == Got(Meaning(doc), rest)
  {
    LegalEnds(lex, sure, doc, rest);
    PrintedIsRead(lex, sure, doc, rest);
  }
}
