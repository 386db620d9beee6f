/** Printing and parsing back: the printed text is a text of the grammar, for the value as C
    functions see it. */
module CJsonRoundTrip {
  import opened Bytes
  import opened Options
  import opened CJsonString
  import opened CJsonText
  import opened CJsonGrammar

  // ---------------------------------------------------------------- the syntax of printed text

  function Newline(fmt: bool, tabs: nat): seq<byte> {
    if fmt then Ascii("\n") + Repeat(0x09, tabs) else []
  }

  lemma Spaces()
    ensures Ascii("\n") == [NEWLINE] && Ascii("\t") == [TAB] && Ascii(" ") == [SPACE] && TAB == 0x09
    ensures White(Ascii("\n")) && White(Ascii("\t")) && White(Ascii(" "))
  {}

  function SyntaxOf<N>(codec: Codec<N>, v: Json<N>, fmt: bool, depth: nat): Syntax
    decreases v, 0
  {
    match v
    case Null => NullWord
    case False => FalseWord
    case True => TrueWord
    case Number(n) => Numeral(codec.render(n))
    case Str(s) => Quoted(Literal(CString(s)))
    case Arr(items) => List([], Elements(codec, items, [], fmt, depth + 1))
    case Obj(members) => Dict(Newline(fmt, depth), Entries(codec, members, fmt, depth + 1))
  }

  function Elements<N>(codec: Codec<N>, items: seq<Json<N>>, before: seq<byte>, fmt: bool, depth: nat): seq<Element>
    decreases items, 1
  {
    if items == [] then []
    else
      [Element(before, SyntaxOf(codec, items[0], fmt, depth), [])]
      + Elements(codec, items[1..], if fmt then Ascii(" ") else [], fmt, depth)
  }

  function Entries<N>(codec: Codec<N>, members: seq<Member<N>>, fmt: bool, depth: nat): seq<Entry>
    requires depth >= 1
    decreases members, 2
  {
    if members == [] then []
    else [EntryOf(codec, members[0], |members| == 1, fmt, depth)] + Entries(codec, members[1..], fmt, depth)
  }

  function EntryOf<N>(codec: Codec<N>, m: Member<N>, last: bool, fmt: bool, depth: nat): Entry
    requires depth >= 1
    decreases m, 1
  {
    Entry(Newline(fmt, depth), Literal(CString(m.key)), [], if fmt then Ascii("\t") else [],
          SyntaxOf(codec, m.value, fmt, depth), if last then Newline(fmt, depth - 1) else [])
  }

  // ---------------------------------------------------------------- its text is what is printed

  lemma {:induction false} FlatIsPrinted<N>(codec: Codec<N>, v: Json<N>, fmt: bool, depth: nat)
    ensures Flat(SyntaxOf(codec, v, fmt, depth)) == Print(codec, v, fmt, depth)
    decreases v, 0
  {
    hide Ascii, FlatItems, FlatEntries, Elements, Entries, PrintItems, PrintMembers, Literal;
    Spelling();
    match v
    case Arr(items) => FlatListIsPrinted(codec, items, fmt, depth);
    case Obj(members) => FlatDictIsPrinted(codec, members, fmt, depth);
    case _ =>
  }

  lemma {:induction false} FlatListIsPrinted<N>(codec: Codec<N>, items: seq<Json<N>>, fmt: bool, depth: nat)
    ensures Flat(SyntaxOf(codec, Arr(items), fmt, depth)) == Print(codec, Arr(items), fmt, depth)
    decreases items, 2
  {
    hide Ascii, FlatItems, Elements, PrintItems;
    Spelling();
    if items == [] {
      NothingPrinted(codec, fmt, depth + 1);
    } else {
      FlatItemsArePrinted(codec, items, [], fmt, depth + 1);
    }
  }

  lemma {:induction false} FlatDictIsPrinted<N>(codec: Codec<N>, members: seq<Member<N>>, fmt: bool, depth: nat)
    ensures Flat(SyntaxOf(codec, Obj(members), fmt, depth)) == Print(codec, Obj(members), fmt, depth)
    decreases members, 3
  {
    hide Ascii, FlatEntries, Entries, PrintMembers, Repeat;
    Spelling();
    Spaces();
    if members == [] {
      NothingPrinted(codec, fmt, depth + 1);
    } else {
      FlatEntriesArePrinted(codec, members, fmt, depth + 1);
    }
  }

  lemma NothingPrinted<N>(codec: Codec<N>, fmt: bool, depth: nat)
    requires depth >= 1
    ensures Elements(codec, [], [], fmt, depth) == [] && Entries(codec, [], fmt, depth) == []
    ensures PrintItems(codec, [], fmt, depth) == [] && PrintMembers(codec, [], fmt, depth) == []
  {}

  lemma {:induction false} FlatItemsArePrinted<N>(codec: Codec<N>, items: seq<Json<N>>, before: seq<byte>, fmt: bool,
                                                  depth: nat)
    requires items != []
    ensures |Elements(codec, items, before, fmt, depth)| == |items|
    ensures FlatItems(Elements(codec, items, before, fmt, depth)) == before + PrintItems(codec, items, fmt, depth)
    decreases items, 1
  {
    hide Ascii, Flat, Print, SyntaxOf;
    Spelling();
    Spaces();
    FlatIsPrinted(codec, items[0], fmt, depth);
    if |items| > 1 {
      FlatItemsArePrinted(codec, items[1..], if fmt then Ascii(" ") else [], fmt, depth);
    }
  }

  lemma {:induction false} FlatEntriesArePrinted<N>(codec: Codec<N>, members: seq<Member<N>>, fmt: bool, depth: nat)
    requires members != [] && depth >= 1
    ensures |Entries(codec, members, fmt, depth)| == |members|
    ensures FlatEntries(Entries(codec, members, fmt, depth)) ==
            (if fmt then [NEWLINE] else []) + (PrintMembers(codec, members, fmt, depth)
                                               + (if fmt then Repeat(TAB, depth - 1) else []))
    decreases members, 2
  {
    hide Ascii, Flat, FlatEntry, EntryOf, Print, PrintMembers, Literal;
    Spelling();
    Spaces();
    var m, last := members[0], |members| == 1;
    FlatEntryIsPrinted(codec, m, last, fmt, depth);
    MembersPrinted(codec, members, fmt, depth);
    if !last {
      FlatEntriesArePrinted(codec, members[1..], fmt, depth);
    }
  }

  /** The text of a member from its indentation to its value. */
  function MemberText<N>(codec: Codec<N>, m: Member<N>, fmt: bool, depth: nat): seq<byte> {
    (if fmt then Repeat(TAB, depth) else []) + Literal(CString(m.key)) + (if fmt then [COLON, TAB] else [COLON])
    + Print(codec, m.value, fmt, depth)
  }

  lemma MembersPrinted<N>(codec: Codec<N>, members: seq<Member<N>>, fmt: bool, depth: nat)
    requires members != []
    ensures PrintMembers(codec, members, fmt, depth) ==
            MemberText(codec, members[0], fmt, depth)
            + ((if |members| > 1 then [COMMA] else []) + ((if fmt then [NEWLINE] else [])
                                                          + PrintMembers(codec, members[1..], fmt, depth)))
    ensures |members| == 1 ==> PrintMembers(codec, members[1..], fmt, depth) == []
  {
    hide Print, Literal, CString;
  }

  lemma {:induction false} FlatEntryIsPrinted<N>(codec: Codec<N>, m: Member<N>, last: bool, fmt: bool, depth: nat)
    requires depth >= 1
    ensures FlatEntry(EntryOf(codec, m, last, fmt, depth)) ==
            (if fmt then [NEWLINE] else []) + (MemberText(codec, m, fmt, depth)
                                               + (if last then Newline(fmt, depth - 1) else []))
    decreases m, 1
  {
    hide FlatEntry, EntryOf, SyntaxOf, Print, Literal, CString, Repeat;
    var value := Print(codec, m.value, fmt, depth);
    var end := if last then Newline(fmt, depth - 1) else [];
    FlatEntryParts(codec, m, last, fmt, depth);
    Shifted(if fmt then [NEWLINE] else [], if fmt then Repeat(TAB, depth) else [], Literal(CString(m.key)),
            if fmt then [COLON, TAB] else [COLON], value, end);
  }

  lemma {:induction false} FlatEntryParts<N>(codec: Codec<N>, m: Member<N>, last: bool, fmt: bool, depth: nat)
    requires depth >= 1
    ensures FlatEntry(EntryOf(codec, m, last, fmt, depth)) ==
            Newline(fmt, depth) + (Literal(CString(m.key)) + ((if fmt then [COLON, TAB] else [COLON])
              + (Print(codec, m.value, fmt, depth) + (if last then Newline(fmt, depth - 1) else []))))
    decreases m, 0
  {
    hide Ascii, Flat, SyntaxOf, Print, Literal, CString, Newline;
    Spelling();
    Spaces();
    FlatIsPrinted(codec, m.value, fmt, depth);
    var tail := Print(codec, m.value, fmt, depth) + (if last then Newline(fmt, depth - 1) else []);
    assert [] + ([COLON] + ((if fmt then [TAB] else []) + tail)) == (if fmt then [COLON, TAB] else [COLON]) + tail;
  }

  lemma Shifted(line: seq<byte>, tabs: seq<byte>, key: seq<byte>, colon: seq<byte>, value: seq<byte>, end: seq<byte>)
    ensures (line + tabs) + (key + (colon + (value + end))) == line + ((((tabs + key) + colon) + value) + end)
  {}

  // ---------------------------------------------------------------- it is well-formed, for the value

  lemma LiteralIs(s: seq<byte>)
    ensures var t := Literal(s); IsLiteral(t) && PairedLiteral(t) && LiteralValue(t) == s
  {
    hide Literal, Strict, Grammar, Paired;
    var t := Literal(s);
    LiteralReadsBack([], s, []);
    assert [] + t + [] == t;
    StrictIsGrammar(t, 1);
    GrammarParts(t, 1);
  }

  /** The text is well-formed, stands for the value cut at its NULs and is readable exactly when the
      value fits. */
  lemma {:induction false} SyntaxIs<N>(codec: Codec<N>, v: Json<N>, fmt: bool, depth: nat, room: nat)
    requires NumbersReadBack(codec, v)
    ensures var x := SyntaxOf(codec, v, fmt, depth);
            WellFormed(codec, x) && Value(codec, x) == Cut(v) && (Readable(x, room) <==> Fits(v, room))
    decreases v, 0
  {
    hide Elements, Entries, Values, MemberValues, ItemsReadable, EntriesReadable, CutItems, CutMembers, Literal,
         IsLiteral, PairedLiteral, LiteralValue;
    match v
    case Str(s) => LiteralIs(CString(s));
    case Arr(items) => ElementsAre(codec, items, [], fmt, depth + 1, if room >= 1 then room - 1 else 0);
    case Obj(members) => EntriesAre(codec, members, fmt, depth + 1, if room >= 1 then room - 1 else 0);
    case _ =>
  }

  lemma {:induction false} ElementsAre<N>(codec: Codec<N>, items: seq<Json<N>>, before: seq<byte>, fmt: bool,
                                          depth: nat, room: nat)
    requires Blank(before) && forall i | 0 <= i < |items| :: NumbersReadBack(codec, items[i])
    ensures var xs := Elements(codec, items, before, fmt, depth);
            && (forall i | 0 <= i < |xs| :: WellFormedItem(codec, xs[i]))
            && Values(codec, xs) == CutItems(items)
            && (ItemsReadable(xs, room) <==> forall i | 0 <= i < |items| :: Fits(items[i], room))
    decreases items, 1
  {
    hide SyntaxOf, WellFormed, Value, Cut, Readable, Fits;
    if items != [] {
      SyntaxIs(codec, items[0], fmt, depth, room);
      ElementsAre(codec, items[1..], if fmt then Ascii(" ") else [], fmt, depth, room);
    }
  }

  lemma {:induction false} EntriesAre<N>(codec: Codec<N>, members: seq<Member<N>>, fmt: bool, depth: nat, room: nat)
    requires depth >= 1 && forall i | 0 <= i < |members| :: NumbersReadBack(codec, members[i].value)
    ensures var xs := Entries(codec, members, fmt, depth);
            && (forall i | 0 <= i < |xs| :: WellFormedEntry(codec, xs[i]))
            && MemberValues(codec, xs) == CutMembers(members)
            && (EntriesReadable(xs, room) <==> forall i | 0 <= i < |members| :: Fits(members[i].value, room))
    decreases members, 2
  {
    hide EntryOf, EntryValue, WellFormedEntry, EntryReadable, Cut, Fits;
    if members != [] {
      EntryIs(codec, members[0], |members| == 1, fmt, depth, room);
      EntriesAre(codec, members[1..], fmt, depth, room);
    }
  }

  lemma {:induction false} EntryIs<N>(codec: Codec<N>, m: Member<N>, last: bool, fmt: bool, depth: nat, room: nat)
    requires depth >= 1 && NumbersReadBack(codec, m.value)
    ensures var e := EntryOf(codec, m, last, fmt, depth);
            && WellFormedEntry(codec, e) && EntryValue(codec, e) == Member(CString(m.key), Cut(m.value))
            && (EntryReadable(e, room) <==> Fits(m.value, room))
    decreases m, 1
  {
    hide SyntaxOf, WellFormed, Value, Cut, Readable, Fits, Literal, IsLiteral, PairedLiteral, LiteralValue;
    LiteralIs(CString(m.key));
    SyntaxIs(codec, m.value, fmt, depth, room);
  }

  // ---------------------------------------------------------------- values without a NUL

  lemma {:induction false} CutIsWhole<N>(v: Json<N>)
    ensures Cut(v) == v <==> NulFree(v)
    decreases v, 0
  {
    hide CutItems, CutMembers;
    match v
    case Str(s) => CStringIsWhole(s);
    case Arr(items) => CutItemsAreWhole(items);
    case Obj(members) => CutMembersAreWhole(members);
    case _ =>
  }

  lemma {:induction false} CutItemsAreWhole<N>(items: seq<Json<N>>)
    ensures CutItems(items) == items <==> forall i | 0 <= i < |items| :: NulFree(items[i])
    decreases items, 1
  {
    hide Cut, NulFree;
    if items != [] {
      CutIsWhole(items[0]);
      CutItemsAreWhole(items[1..]);
    }
  }

  lemma {:induction false} CutMembersAreWhole<N>(members: seq<Member<N>>)
    ensures CutMembers(members) == members
       <==> forall i | 0 <= i < |members| :: NoNul(members[i].key) && NulFree(members[i].value)
    decreases members, 1
  {
    hide Cut, NulFree, CString, NoNul;
    if members != [] {
      CStringIsWhole(members[0].key);
      CutIsWhole(members[0].value);
      CutMembersAreWhole(members[1..]);
    }
  }

  // ---------------------------------------------------------------- the theorem

  lemma FaithfulDef<N>(codec: Codec<N>, v: Json<N>)
    requires Faithful(codec, v)
    ensures Sane(codec) && NumbersReadBack(codec, v)
  {}

  /** A value printed compactly or formatted, with the terminating NUL, is parsed to the value cut
      at its NULs exactly when it is nested at most 1000 deep; a deeper one is refused. Refusing
      trailing garbage makes no difference. */
  lemma ParsePrinted<N>(codec: Codec<N>, v: Json<N>, fmt: bool, requireNul: bool)
    requires Faithful(codec, v)
    ensures ParseText(codec, Print(codec, v, fmt, 0) + [0], requireNul)
         == if Fits(v, 1000) then Some(Cut(v)) else None
  {
    hide Print, ParseText, Fits, Cut, Flat, WellFormed, Readable, Value, SyntaxOf;
    var x := SyntaxOf(codec, v, fmt, 0);
    FaithfulDef(codec, v);
    SyntaxIs(codec, v, fmt, 0, NESTING_LIMIT);
    FlatIsPrinted(codec, v, fmt, 0);
    TextReads(codec, [], [], x, [], requireNul);
    assert [] + [] + Flat(x) + [] + [0] == Flat(x) + [0];
    if x.Numeral? { NumeralFits(codec, v, fmt); }
  }

  lemma NumeralFits<N>(codec: Codec<N>, v: Json<N>, fmt: bool)
    requires SyntaxOf(codec, v, fmt, 0).Numeral?
    ensures Fits(v, 1000)
  {}

  /** The round trip returns the value itself exactly when it is nested at most 1000 deep and no
      string or key in it holds a NUL. */
  lemma ReadsItselfBack<N>(codec: Codec<N>, v: Json<N>, fmt: bool, requireNul: bool)
    requires Faithful(codec, v)
    ensures ParseText(codec, Print(codec, v, fmt, 0) + [0], requireNul) == Some(v)
       <==> Fits(v, 1000) && NulFree(v)
  {
    hide Print, ParseText, Fits, Cut, NulFree;
    ParsePrinted(codec, v, fmt, requireNul);
    CutIsWhole(v);
  }

  /** A value the parser itself makes and that is not read back: the text "\u0000" is accepted as the
      string of one NUL, which is printed as "" and read back as the empty string. */
  lemma DecodedNulIsLost<N>(codec: Codec<N>, fmt: bool)
    requires Sane(codec)
    ensures var text: seq<byte> := [QUOTE, BACKSLASH, LOWER_U, 0x30, 0x30, 0x30, 0x30, QUOTE];
            && ParseText(codec, text + [0], true) == Some(Str([0]))
            && Print(codec, Str([0]), fmt, 0) == [QUOTE, QUOTE]
            && ParseText(codec, [QUOTE, QUOTE] + [0], true) == Some(Str([]))
  {
    hide ParseText, Literal;
    var text: seq<byte> := [QUOTE, BACKSLASH, LOWER_U, 0x30, 0x30, 0x30, 0x30, QUOTE];
    NulLiteral();
    LiteralText(codec, [0]);
    LiteralText(codec, []);
  }

  lemma NulLiteral()
    ensures Literal([0]) == [QUOTE, BACKSLASH, LOWER_U, 0x30, 0x30, 0x30, 0x30, QUOTE]
    ensures Literal([]) == [QUOTE, QUOTE] && CString([0]) == []
  {}

  lemma LiteralText<N>(codec: Codec<N>, s: seq<byte>)
    requires Sane(codec)
    ensures ParseText(codec, Literal(s) + [0], true) == Some(Str(s))
  {
    hide ParseText, Literal, IsLiteral, PairedLiteral, LiteralValue;
    var t := Literal(s);
    LiteralIs(s);
    TextReads(codec, [], [], Quoted(t), [], true);
    assert [] + [] + t + [] + [0] == t + [0];
  }
}
