/** The texts of RFC 8259, with whatever white space, and how the parser reads them. */
module CJsonGrammar {
  import opened Bytes
  import opened Options
  import opened CJsonString
  import opened CJsonText

  // ---------------------------------------------------------------- texts

  /** A text with its white space: sections 2 to 7 of RFC 8259. */
  datatype Syntax =
    | NullWord
    | FalseWord
    | TrueWord
    | Numeral(digits: seq<byte>)
    | Quoted(text: seq<byte>)
    | List(gap: seq<byte>, items: seq<Element>)  // the gap is the white space of an empty list
    | Dict(gap: seq<byte>, entries: seq<Entry>)

  datatype Element = Element(before: seq<byte>, value: Syntax, after: seq<byte>)

  datatype Entry = Entry(before: seq<byte>, key: seq<byte>, mid: seq<byte>, gap: seq<byte>, value: Syntax,
                         after: seq<byte>)

  // The text is spelled in characters here, and shares no constant with parser and printer.

  function Ascii(s: string): (t: seq<byte>)
    ensures |t| == |s|
  {
    seq(|s|, i requires 0 <= i < |s| => s[i] as int % 0x100)
  }

  function Flat(x: Syntax): seq<byte>
    decreases x, 0
  {
    match x
    case NullWord => Ascii("null")
    case FalseWord => Ascii("false")
    case TrueWord => Ascii("true")
    case Numeral(digits) => digits
    case Quoted(text) => text
    case List(gap, items) => Ascii("[") + ((if items == [] then gap else FlatItems(items)) + Ascii("]"))
    case Dict(gap, entries) => Ascii("{") + ((if entries == [] then gap else FlatEntries(entries)) + Ascii("}"))
  }

  function FlatItems(items: seq<Element>): seq<byte>
    decreases items, 1
  {
    if items == [] then []
    else FlatItem(items[0]) + (if |items| == 1 then [] else Ascii(",") + FlatItems(items[1..]))
  }

  function FlatItem(e: Element): seq<byte>
    decreases e, 1
  {
    e.before + (Flat(e.value) + e.after)
  }

  function FlatEntries(entries: seq<Entry>): seq<byte>
    decreases entries, 1
  {
    if entries == [] then []
    else FlatEntry(entries[0]) + (if |entries| == 1 then [] else Ascii(",") + FlatEntries(entries[1..]))
  }

  function FlatEntry(e: Entry): seq<byte>
    decreases e, 1
  {
    e.before + (e.key + EntryTail(e))
  }

  /** What follows the key of a member. */
  function EntryTail(e: Entry): seq<byte>
    decreases e, 0
  {
    e.mid + (Ascii(":") + (e.gap + (Flat(e.value) + e.after)))
  }

  lemma Spelling()
    ensures Ascii("null") == NULL_TEXT && Ascii("false") == FALSE_TEXT && Ascii("true") == TRUE_TEXT
    ensures Ascii("[") == [LBRACKET] && Ascii("]") == [RBRACKET] && Ascii("{") == [LBRACE] && Ascii("}") == [RBRACE]
    ensures Ascii(",") == [COMMA] && Ascii(":") == [COLON]
  {}

  /** What the parser skips; the white space of section 2 of RFC 8259 is part of it. */
  predicate Blank(t: seq<byte>) {
    forall i | 0 <= i < |t| :: t[i] <= 32
  }

  /** A literal of section 7 of RFC 8259. */
  predicate IsLiteral(t: seq<byte>) {
    t != [] && GrammarString(t, 0) == Some(|t|)
  }

  predicate PairedLiteral(t: seq<byte>) {
    |t| >= 2 && Paired(t, 1, |t| - 1)
  }

  /** What a literal stands for; without a pair for every surrogate it stands for nothing. */
  function LiteralValue(t: seq<byte>): seq<byte> {
    if t == [] || StrictString(t, 0).None? then [] else StrictString(t, 0).value.0
  }

  /** A number as the parser can tell one; the numbers of section 6 of RFC 8259 are among them. */
  predicate LooksNumeric(t: seq<byte>) {
    && t != [] && (t[0] == 0x2D || 0x30 <= t[0] <= 0x39)
    && forall i | 0 <= i < |t| :: NumberChar(t[i])
  }

  predicate WellFormed<N>(codec: Codec<N>, x: Syntax)
    decreases x
  {
    match x
    case Numeral(digits) => LooksNumeric(digits) && codec.strtod(digits).1 == |digits|
    case Quoted(text) => IsLiteral(text)
    case List(gap, items) => Blank(gap) && forall i | 0 <= i < |items| :: WellFormedItem(codec, items[i])
    case Dict(gap, entries) => Blank(gap) && forall i | 0 <= i < |entries| :: WellFormedEntry(codec, entries[i])
    case _ => true
  }

  predicate WellFormedItem<N>(codec: Codec<N>, e: Element)
    decreases e
  {
    Blank(e.before) && Blank(e.after) && WellFormed(codec, e.value)
  }

  predicate WellFormedEntry<N>(codec: Codec<N>, e: Entry)
    decreases e
  {
    && Blank(e.before) && Blank(e.mid) && Blank(e.gap) && Blank(e.after)
    && IsLiteral(e.key) && WellFormed(codec, e.value)
  }

  /** What a text stands for. */
  function Value<N>(codec: Codec<N>, x: Syntax): Json<N>
    requires WellFormed(codec, x)
    decreases x, 0
  {
    match x
    case NullWord => Null
    case FalseWord => False
    case TrueWord => True
    case Numeral(digits) => Number(codec.strtod(digits).0)
    case Quoted(text) => Str(LiteralValue(text))
    case List(_, items) => Arr(Values(codec, items))
    case Dict(_, entries) => Obj(MemberValues(codec, entries))
  }

  function Values<N>(codec: Codec<N>, items: seq<Element>): seq<Json<N>>
    requires forall i | 0 <= i < |items| :: WellFormedItem(codec, items[i])
    decreases items, 1
  {
    if items == [] then []
    else
      assert WellFormedItem(codec, items[0]);
      [Value(codec, items[0].value)] + Values(codec, items[1..])
  }

  function MemberValues<N>(codec: Codec<N>, entries: seq<Entry>): seq<Member<N>>
    requires forall i | 0 <= i < |entries| :: WellFormedEntry(codec, entries[i])
    decreases entries, 1
  {
    if entries == [] then [] else [EntryValue(codec, entries[0])] + MemberValues(codec, entries[1..])
  }

  function EntryValue<N>(codec: Codec<N>, e: Entry): Member<N>
    requires WellFormedEntry(codec, e)
    decreases e, 1
  {
    Member(LiteralValue(e.key), Value(codec, e.value))
  }

  /** What the parser asks of a text besides: bounded nesting, at most 63 characters a number and
      no half of a surrogate pair. */
  predicate Readable(x: Syntax, room: nat)
    decreases x, 0
  {
    match x
    case Numeral(digits) => |digits| <= 63
    case Quoted(text) => PairedLiteral(text)
    case List(_, items) => room >= 1 && ItemsReadable(items, room - 1)
    case Dict(_, entries) => room >= 1 && EntriesReadable(entries, room - 1)
    case _ => true
  }

  predicate ItemsReadable(items: seq<Element>, room: nat)
    decreases items, 1
  {
    items == [] || (Readable(items[0].value, room) && ItemsReadable(items[1..], room))
  }

  predicate EntriesReadable(entries: seq<Entry>, room: nat)
    decreases entries, 1
  {
    entries == [] || (EntryReadable(entries[0], room) && EntriesReadable(entries[1..], room))
  }

  predicate EntryReadable(e: Entry, room: nat)
    decreases e, 1
  {
    PairedLiteral(e.key) && Readable(e.value, room)
  }

  // ---------------------------------------------------------------- reading at a position

  lemma AtSplit(c: seq<byte>, off: nat, a: seq<byte>, b: seq<byte>)
    requires At(c, off, a + b)
    ensures At(c, off, a) && At(c, off + |a|, b)
  {
    assert c[off..off + |a|] == c[off..off + |a| + |b|][..|a|];
    assert c[off + |a|..off + |a| + |b|] == c[off..off + |a| + |b|][|a|..];
  }

  lemma AtIndex(c: seq<byte>, off: nat, t: seq<byte>, i: nat)
    requires At(c, off, t) && i < |t|
    ensures off + i < |c| && c[off + i] == t[i]
  {
    assert c[off..off + |t|][i] == c[off + i];
  }

  lemma AtOne(c: seq<byte>, off: nat, x: byte)
    requires At(c, off, [x])
    ensures off < |c| && c[off] == x
  {
    AtIndex(c, off, [x], 0);
  }

  lemma {:induction false} SkipBlank(c: seq<byte>, off: nat, t: seq<byte>)
    requires At(c, off, t) && Blank(t) && off + |t| < |c| && c[off + |t|] > 32
    ensures SkipWs(c, off) == off + |t|
    decreases |t|
  {
    if t != [] {
      AtIndex(c, off, t, 0);
      assert [t[0]] + t[1..] == t;
      AtSplit(c, off, [t[0]], t[1..]);
      SkipBlank(c, off + 1, t[1..]);
    }
  }

  lemma SkipNothing(c: seq<byte>, off: nat)
    requires off < |c| && c[off] > 32
    ensures SkipWs(c, off) == off
  {}

  lemma Separators()
    ensures RBRACKET > 32 && RBRACE > 32 && COMMA > 32 && COLON > 32 && QUOTE > 32
    ensures !NumberChar(RBRACKET) && !NumberChar(RBRACE) && !NumberChar(COMMA) && !NumberChar(COLON)
  {}

  lemma NumberIsDark(b: byte)
    requires NumberChar(b)
    ensures b > 32 && b != COMMA && b != RBRACKET && b != RBRACE
  {}

  /** Where a number may end: at white space, a separator or the end. */
  predicate Delimited(c: seq<byte>, off: nat) {
    off <= |c| && (off < |c| ==> !NumberChar(c[off]))
  }

  /** White space and then a separator end a number, and are skipped up to the separator. */
  lemma AfterValue(c: seq<byte>, off: nat, after: seq<byte>)
    requires At(c, off, after) && Blank(after) && off + |after| < |c|
    requires c[off + |after|] > 32 && !NumberChar(c[off + |after|])
    ensures Delimited(c, off) && SkipWs(c, off) == off + |after|
  {
    SkipBlank(c, off, after);
    if after != [] { AtIndex(c, off, after, 0); }
  }

  // ---------------------------------------------------------------- leaves

  /** A text starts with a character that is neither white space nor a separator. */
  lemma FirstByte<N>(codec: Codec<N>, x: Syntax)
    requires WellFormed(codec, x)
    ensures var t := Flat(x);
            |t| >= 1 && 32 < t[0] < 0x80 && t[0] != RBRACKET && t[0] != RBRACE && t[0] != COMMA
  {
    hide Ascii, FlatItems, FlatEntries, Strict;
    Spelling();
  }

  /** The strict reader does the same on a text and on the text inside a buffer. */
  lemma {:induction false} StrictMoves(c: seq<byte>, off: nat, t: seq<byte>, i: nat)
    requires At(c, off, t) && i <= |t| && Strict(t, i).Some?
    ensures Strict(c, off + i) == Some((Strict(t, i).value.0, off + Strict(t, i).value.1))
    decreases |t| - i
  {
    hide EscapeValue, FourDigits, Utf8, Cons, At;
    AtIndex(c, off, t, i);
    if t[i] == QUOTE {
    } else if t[i] != BACKSLASH {
      StrictMoves(c, off, t, i + 1);
    } else {
      AtIndex(c, off, t, i + 1);
      if t[i + 1] != LOWER_U {
        StrictMoves(c, off, t, i + 2);
        LetterMoves(c, off, t, i);
      } else if !(0xD800 <= FourDigits(t, i + 2).value <= 0xDFFF) {
        StrictMoves(c, off, t, i + 6);
        SingleMoves(c, off, t, i);
      } else {
        StrictMoves(c, off, t, i + 12);
        PairMoves(c, off, t, i);
      }
    }
  }

  lemma LetterMoves(c: seq<byte>, off: nat, t: seq<byte>, i: nat)
    requires At(c, off, t) && i + 2 <= |t| && Strict(t, i).Some? && Strict(t, i + 2).Some?
    requires t[i] == BACKSLASH && t[i + 1] != LOWER_U
    requires Strict(c, off + i + 2) == Some((Strict(t, i + 2).value.0, off + Strict(t, i + 2).value.1))
    ensures Strict(c, off + i) == Some((Strict(t, i).value.0, off + Strict(t, i).value.1))
  {
    hide EscapeValue, FourDigits, Utf8, Cons, At;
    AtIndex(c, off, t, i); AtIndex(c, off, t, i + 1);
  }

  lemma SingleMoves(c: seq<byte>, off: nat, t: seq<byte>, i: nat)
    requires At(c, off, t) && i + 6 <= |t| && Strict(t, i).Some? && Strict(t, i + 6).Some?
    requires t[i] == BACKSLASH && t[i + 1] == LOWER_U && !(0xD800 <= FourDigits(t, i + 2).value <= 0xDFFF)
    requires Strict(c, off + i + 6) == Some((Strict(t, i + 6).value.0, off + Strict(t, i + 6).value.1))
    ensures Strict(c, off + i) == Some((Strict(t, i).value.0, off + Strict(t, i).value.1))
  {
    hide EscapeValue, FourDigits, Utf8, At;
    AtIndex(c, off, t, i); AtIndex(c, off, t, i + 1);
    DigitsMove(c, off, t, i + 2);
  }

  lemma PairMoves(c: seq<byte>, off: nat, t: seq<byte>, i: nat)
    requires At(c, off, t) && i + 12 <= |t| && Strict(t, i).Some? && Strict(t, i + 12).Some?
    requires t[i] == BACKSLASH && t[i + 1] == LOWER_U && 0xD800 <= FourDigits(t, i + 2).value <= 0xDFFF
    requires Strict(c, off + i + 12) == Some((Strict(t, i + 12).value.0, off + Strict(t, i + 12).value.1))
    ensures Strict(c, off + i) == Some((Strict(t, i).value.0, off + Strict(t, i).value.1))
  {
    hide EscapeValue, FourDigits, Utf8, At;
    AtIndex(c, off, t, i); AtIndex(c, off, t, i + 1); AtIndex(c, off, t, i + 6); AtIndex(c, off, t, i + 7);
    DigitsMove(c, off, t, i + 2);
    DigitsMove(c, off, t, i + 8);
  }

  lemma DigitsMove(c: seq<byte>, off: nat, t: seq<byte>, i: nat)
    requires At(c, off, t) && i + 4 <= |t|
    ensures FourDigits(c, off + i) == FourDigits(t, i)
  {
    AtIndex(c, off, t, i); AtIndex(c, off, t, i + 1); AtIndex(c, off, t, i + 2); AtIndex(c, off, t, i + 3);
  }

  lemma {:induction false} GrammarMoves(c: seq<byte>, off: nat, t: seq<byte>, i: nat)
    requires At(c, off, t) && i <= |t| && Grammar(t, i).Some?
    ensures Grammar(c, off + i) == Some(off + Grammar(t, i).value)
    decreases |t| - i
  {
    hide EscapeValue, FourDigits, At;
    AtIndex(c, off, t, i);
    if t[i] == QUOTE {
    } else if t[i] != BACKSLASH {
      GrammarMoves(c, off, t, i + 1);
    } else {
      AtIndex(c, off, t, i + 1);
      if t[i + 1] != LOWER_U {
        GrammarMoves(c, off, t, i + 2);
      } else {
        DigitsMove(c, off, t, i + 2);
        GrammarMoves(c, off, t, i + 6);
      }
    }
  }

  lemma {:induction false} PairedMoves(c: seq<byte>, off: nat, t: seq<byte>, i: nat, end: nat)
    requires At(c, off, t) && end < |t|
    ensures off + end < |c| && (Paired(c, off + i, off + end) <==> Paired(t, i, end))
    decreases end - i
  {
    hide FourDigits, At;
    AtIndex(c, off, t, end);
    if i < end {
      AtIndex(c, off, t, i);
      AtIndex(c, off, t, i + 1);
      if t[i] != BACKSLASH {
        PairedMoves(c, off, t, i + 1, end);
      } else if t[i + 1] != LOWER_U {
        PairedMoves(c, off, t, i + 2, end);
      } else if i + 6 <= end {
        DigitsMove(c, off, t, i + 2);
        PairedMoves(c, off, t, i + 6, end);
        if i + 12 <= end {
          AtIndex(c, off, t, i + 6); AtIndex(c, off, t, i + 7);
          DigitsMove(c, off, t, i + 8);
          PairedMoves(c, off, t, i + 12, end);
        }
      }
    }
  }

  /** A literal inside a buffer is parsed to its value exactly when its surrogates are paired. */
  lemma LiteralAt(c: seq<byte>, off: nat, t: seq<byte>)
    requires IsLiteral(t) && At(c, off, t)
    ensures |t| >= 2 && off < |c| && c[off] == QUOTE
    ensures ParseString(c, off) == if PairedLiteral(t) then Some((LiteralValue(t), off + |t|)) else None
  {
    hide Strict, Grammar, ClosingQuote, Decoded, Paired, ParseString, At;
    AtIndex(c, off, t, 0);
    GrammarMoves(c, off, t, 1);
    PairedMoves(c, off, t, 1, |t| - 1);
    GrammarIsAcceptedIffPaired(c, off);
    GrammarParts(t, 1);
    if PairedLiteral(t) { StrictMoves(c, off, t, 1); }
  }

  lemma WrongWord(c: seq<byte>, off: nat, word: seq<byte>)
    requires |word| >= 1 && off < |c| && c[off] != word[0]
    ensures !At(c, off, word)
  {}

  /** No word starts with a quote, a bracket or a digit. */
  lemma NoWord(c: seq<byte>, off: nat)
    requires off < |c| && (c[off] == LBRACKET || c[off] == LBRACE || c[off] == QUOTE || c[off] == 0x2D
             || 0x30 <= c[off] <= 0x39)
    ensures !At(c, off, NULL_TEXT) && !At(c, off, FALSE_TEXT) && !At(c, off, TRUE_TEXT)
  {
    WrongWord(c, off, NULL_TEXT); WrongWord(c, off, FALSE_TEXT); WrongWord(c, off, TRUE_TEXT);
  }

  lemma {:induction false} RunIsText(c: seq<byte>, off: nat, t: seq<byte>, max: nat)
    requires At(c, off, t) && (forall i | 0 <= i < |t| :: NumberChar(t[i]))
    requires |t| <= max ==> Delimited(c, off + |t|)
    ensures Run(c, off, max) == if |t| <= max then t else t[..max]
    decreases max
  {
    hide NumberChar, At;
    if t != [] && max > 0 {
      AtIndex(c, off, t, 0);
      assert [t[0]] + t[1..] == t;
      AtSplit(c, off, [t[0]], t[1..]);
      RunIsText(c, off + 1, t[1..], max - 1);
      assert |t| > max ==> t[..max] == [t[0]] + t[1..][..max - 1];
    } else {
      NoRun(c, off, t, max);
    }
  }

  lemma NoRun(c: seq<byte>, off: nat, t: seq<byte>, max: nat)
    requires At(c, off, t) && ((t == [] && Delimited(c, off)) || max == 0)
    ensures Run(c, off, max) == []
  {}

  /** The parser stopped inside a number. */
  predicate Stuck<N>(c: seq<byte>, r: Parsed<N>) {
    r.None? || (r.value.1 < |c| && NumberChar(c[r.value.1]))
  }

  lemma NumeralReads<N>(codec: Codec<N>, c: seq<byte>, off: nat, digits: seq<byte>, depth: nat)
    requires Sane(codec) && WellFormed(codec, Numeral(digits))
    requires At(c, off, digits) && Delimited(c, off + |digits|)
    ensures var r := ParseValue(codec, c, off, depth);
            if |digits| <= 63 then r == Some((Number(codec.strtod(digits).0), off + |digits|)) else Stuck(c, r)
  {
    hide Run;
    AtIndex(c, off, digits, 0);
    NoWord(c, off);
    RunIsText(c, off, digits, 63);
    var (n, used) := codec.strtod(Run(c, off, 63));
    assert used <= |Run(c, off, 63)|;
    if |digits| > 63 && used > 0 { AtIndex(c, off, digits, used); }
  }

  lemma LeafReads<N>(codec: Codec<N>, c: seq<byte>, off: nat, x: Syntax, depth: nat)
    requires Sane(codec) && WellFormed(codec, x) && (x.NullWord? || x.FalseWord? || x.TrueWord? || x.Quoted?)
    requires At(c, off, Flat(x))
    ensures ParseValue(codec, c, off, depth) ==
            if Readable(x, 0) then Some((Value(codec, x), off + |Flat(x)|)) else None
  {
    hide Ascii, ParseString, IsLiteral, PairedLiteral, LiteralValue, ParseItems, ParseMembers, ParseNumber;
    Spelling();
    match x
    case NullWord =>
    case FalseWord => AtIndex(c, off, FALSE_TEXT, 0); WrongWord(c, off, NULL_TEXT);
    case TrueWord => AtIndex(c, off, TRUE_TEXT, 0); WrongWord(c, off, NULL_TEXT); WrongWord(c, off, FALSE_TEXT);
    case Quoted(text) => LiteralReads(codec, c, off, text, depth);
  }

  lemma LiteralReads<N>(codec: Codec<N>, c: seq<byte>, off: nat, text: seq<byte>, depth: nat)
    requires Sane(codec) && IsLiteral(text) && At(c, off, text)
    ensures ParseValue(codec, c, off, depth) ==
            if PairedLiteral(text) then Some((Str(LiteralValue(text)), off + |text|)) else None
  {
    hide ParseString, IsLiteral, PairedLiteral, LiteralValue, ParseItems, ParseMembers, ParseNumber, At;
    LiteralAt(c, off, text);
    NoWord(c, off);
  }

  // ---------------------------------------------------------------- lists

  lemma ItemsUnfold<N>(codec: Codec<N>, items: seq<Element>, room: nat)
    requires items != [] && forall i | 0 <= i < |items| :: WellFormedItem(codec, items[i])
    ensures var e := items[0];
            && Blank(e.before) && Blank(e.after) && WellFormed(codec, e.value)
            && (forall i | 0 <= i < |items[1..]| :: WellFormedItem(codec, items[1..][i]))
            && Values(codec, items) == [Value(codec, e.value)] + Values(codec, items[1..])
            && (ItemsReadable(items, room) <==> Readable(e.value, room) && ItemsReadable(items[1..], room))
  {
    assert WellFormedItem(codec, items[0]);
  }

  /** Where the parts of a list of elements lie; `next` is the separator behind the first. */
  lemma ItemsLayout(c: seq<byte>, off: nat, items: seq<Element>)
    requires items != [] && At(c, off, FlatItems(items))
    ensures var e := items[0];
            var start := off + |e.before|;
            var end := start + |Flat(e.value)|;
            var next := end + |e.after|;
            && At(c, off, e.before) && At(c, start, Flat(e.value)) && At(c, end, e.after)
            && (|items| == 1 ==> next == off + |FlatItems(items)|)
            && (|items| > 1 ==> next < |c| && c[next] == COMMA && At(c, next + 1, FlatItems(items[1..]))
                                && next + 1 + |FlatItems(items[1..])| == off + |FlatItems(items)|)
  {
    hide At, FlatItems, Flat;
    var e := items[0];
    FlatItemsDef(items);
    var start := off + |e.before|;
    var end := start + |Flat(e.value)|;
    var next := end + |e.after|;
    if |items| == 1 {
      AtSplit(c, off, e.before, Flat(e.value) + e.after);
      AtSplit(c, start, Flat(e.value), e.after);
    } else {
      AtSplit(c, off, FlatItem(e), [COMMA] + FlatItems(items[1..]));
      AtSplit(c, off, e.before, Flat(e.value) + e.after);
      AtSplit(c, start, Flat(e.value), e.after);
      AtSplit(c, next, [COMMA], FlatItems(items[1..]));
      AtOne(c, next, COMMA);
    }
  }

  lemma FlatItemsDef(items: seq<Element>)
    requires items != []
    ensures |items| == 1 ==> FlatItems(items) == FlatItem(items[0])
    ensures |items| > 1 ==> FlatItems(items) == FlatItem(items[0]) + ([COMMA] + FlatItems(items[1..]))
    ensures |FlatItem(items[0])| == |items[0].before| + |Flat(items[0].value)| + |items[0].after|
  {
    hide Ascii, Flat;
    Spelling();
    assert FlatItem(items[0]) + [] == FlatItem(items[0]);
  }

  /** One turn of the loop of parse_array. */
  lemma ItemStep<N>(codec: Codec<N>, c: seq<byte>, off: nat, start: nat, depth: nat)
    requires Sane(codec) && off <= |c| && SkipWs(c, off) == start
    ensures var v := ParseValue(codec, c, start, depth);
            ParseItems(codec, c, off, depth) ==
            if v.None? then None
            else
              var next := SkipWs(c, v.value.1);
              if next == |c| then None
              else if c[next] == COMMA then
                var rest := ParseItems(codec, c, next + 1, depth);
                if rest.None? then None else Some(([v.value.0] + rest.value.0, rest.value.1))
              else if c[next] == RBRACKET then Some(([v.value.0], next + 1))
              else None
  {
    hide ParseValue, SkipWs;
  }

  lemma StuckStops<N>(c: seq<byte>, r: Parsed<N>)
    requires Stuck(c, r) && r.Some?
    ensures r.value.1 < |c| && SkipWs(c, r.value.1) == r.value.1
    ensures var b := c[r.value.1]; b != COMMA && b != RBRACKET && b != RBRACE
  {
    NumberIsDark(c[r.value.1]);
  }

  /** From the first element to behind the closing bracket. */
  lemma {:induction false} ItemsRead<N>(codec: Codec<N>, c: seq<byte>, off: nat, items: seq<Element>, depth: nat)
    requires Sane(codec) && items != [] && depth <= NESTING_LIMIT
    requires forall i | 0 <= i < |items| :: WellFormedItem(codec, items[i])
    requires At(c, off, FlatItems(items)) && At(c, off + |FlatItems(items)|, [RBRACKET])
    ensures off <= |c| && SkipWs(c, off) < |c| && c[SkipWs(c, off)] > 32 && c[SkipWs(c, off)] != RBRACKET
    ensures ParseItems(codec, c, off, depth) ==
            if ItemsReadable(items, NESTING_LIMIT - depth)
            then Some((Values(codec, items), off + |FlatItems(items)| + 1)) else None
    decreases items, 1
  {
    hide Flat, FlatItems, ParseValue, ParseItems, Value, Values, Readable, ItemsReadable, WellFormed, WellFormedItem,
         SkipWs, At, Stuck;
    var e, room := items[0], NESTING_LIMIT - depth;
    Separators();
    ItemsUnfold(codec, items, room);
    ItemsLayout(c, off, items);
    var start := off + |e.before|;
    var end := start + |Flat(e.value)|;
    var next := end + |e.after|;
    AtOne(c, off + |FlatItems(items)|, RBRACKET);
    FirstByte(codec, e.value);
    AtIndex(c, start, Flat(e.value), 0);
    SkipBlank(c, off, e.before);
    AfterValue(c, end, e.after);
    Reads(codec, c, start, e.value, depth);
    ItemStep(codec, c, off, start, depth);
    var v := ParseValue(codec, c, start, depth);
    if !Readable(e.value, room) {
      if v.Some? { StuckStops(c, v); }
    } else if |items| == 1 {
      assert items[1..] == [];
      EmptyValues(codec, room);
      assert [Value(codec, e.value)] + [] == [Value(codec, e.value)];
    } else {
      ItemsRead(codec, c, next + 1, items[1..], depth);
    }
  }

  lemma Bracketed(c: seq<byte>, off: nat, open: byte, inner: seq<byte>, close: byte)
    requires At(c, off, [open] + (inner + [close]))
    ensures var end := off + 1 + |inner|;
            off < |c| && c[off] == open && At(c, off + 1, inner) && At(c, end, [close]) && end < |c| && c[end] == close
  {
    hide At;
    AtSplit(c, off, [open], inner + [close]);
    AtSplit(c, off + 1, inner, [close]);
    AtOne(c, off, open);
    AtOne(c, off + 1 + |inner|, close);
  }

  /** parse_value on an opening bracket. */
  lemma OpensList<N>(codec: Codec<N>, c: seq<byte>, off: nat, depth: nat)
    requires Sane(codec) && off + 1 < |c| && c[off] == LBRACKET
    ensures var first := SkipWs(c, off + 1);
            var r := ParseValue(codec, c, off, depth);
            && (depth >= NESTING_LIMIT ==> r == None)
            && (depth < NESTING_LIMIT && c[first] == RBRACKET ==> r == Some((Arr([]), first + 1)))
            && (depth < NESTING_LIMIT && c[first] > 32 && c[first] != RBRACKET ==>
                  var items := ParseItems(codec, c, off + 1, depth + 1);
                  r == if items.None? then None else Some((Arr(items.value.0), items.value.1)))
  {
    hide ParseItems, ParseMembers, ParseString, ParseNumber, SkipWs, At;
    NoWord(c, off);
    var first := SkipWs(c, off + 1);
    if c[first] > 32 {
      SkipNothing(c, first);
      ItemStep(codec, c, off + 1, first, depth + 1);
      ItemStep(codec, c, first, first, depth + 1);
    }
  }

  lemma {:induction false} ListReads<N>(codec: Codec<N>, c: seq<byte>, off: nat, x: Syntax, depth: nat)
    requires Sane(codec) && WellFormed(codec, x) && x.List? && depth <= NESTING_LIMIT && At(c, off, Flat(x))
    ensures ParseValue(codec, c, off, depth) ==
            if Readable(x, NESTING_LIMIT - depth) then Some((Value(codec, x), off + |Flat(x)|)) else None
    decreases x, 0
  {
    hide Flat, FlatItems, ParseValue, ParseItems, Value, Values, Readable, ItemsReadable, WellFormed, WellFormedItem,
         SkipWs, At;
    ListDef(codec, x, NESTING_LIMIT - depth);
    var inner := if x.items == [] then x.gap else FlatItems(x.items);
    Separators();
    Bracketed(c, off, LBRACKET, inner, RBRACKET);
    OpensList(codec, c, off, depth);
    if x.items == [] {
      SkipBlank(c, off + 1, x.gap);
      EmptyValues(codec, NESTING_LIMIT - depth - 1);
    } else if depth < NESTING_LIMIT {
      ItemsRead(codec, c, off + 1, x.items, depth + 1);
    }
  }

  lemma ListDef<N>(codec: Codec<N>, x: Syntax, room: nat)
    requires x.List? && WellFormed(codec, x)
    ensures Flat(x) == [LBRACKET] + ((if x.items == [] then x.gap else FlatItems(x.items)) + [RBRACKET])
    ensures Blank(x.gap) && forall i | 0 <= i < |x.items| :: WellFormedItem(codec, x.items[i])
    ensures Value(codec, x) == Arr(Values(codec, x.items))
    ensures Readable(x, room) <==> room >= 1 && ItemsReadable(x.items, room - 1)
  {
    hide Ascii, FlatItems, Values, ItemsReadable, WellFormedItem;
    Spelling();
  }

  lemma EmptyValues<N>(codec: Codec<N>, room: int)
    ensures Values(codec, []) == [] && MemberValues(codec, []) == []
    ensures room >= 0 ==> ItemsReadable([], room) && EntriesReadable([], room)
  {}

  // ---------------------------------------------------------------- objects

  lemma EntriesUnfold<N>(codec: Codec<N>, entries: seq<Entry>, room: nat)
    requires entries != [] && forall i | 0 <= i < |entries| :: WellFormedEntry(codec, entries[i])
    ensures WellFormedEntry(codec, entries[0])
    ensures forall i | 0 <= i < |entries[1..]| :: WellFormedEntry(codec, entries[1..][i])
    ensures MemberValues(codec, entries) == [EntryValue(codec, entries[0])] + MemberValues(codec, entries[1..])
    ensures EntriesReadable(entries, room) <==> EntryReadable(entries[0], room) && EntriesReadable(entries[1..], room)
  {}

  lemma EntriesLayout(c: seq<byte>, off: nat, entries: seq<Entry>)
    requires entries != [] && At(c, off, FlatEntries(entries))
    ensures var next := off + |FlatEntry(entries[0])|;
            && At(c, off, FlatEntry(entries[0]))
            && (|entries| == 1 ==> next == off + |FlatEntries(entries)|)
            && (|entries| > 1 ==> next < |c| && c[next] == COMMA && At(c, next + 1, FlatEntries(entries[1..]))
                                  && next + 1 + |FlatEntries(entries[1..])| == off + |FlatEntries(entries)|)
  {
    hide Ascii, At, FlatEntry;
    Spelling();
    var first := FlatEntry(entries[0]);
    if |entries| == 1 {
      assert first + [] == first;
    } else {
      AtSplit(c, off, first, [COMMA] + FlatEntries(entries[1..]));
      AtSplit(c, off + |first|, [COMMA], FlatEntries(entries[1..]));
      AtOne(c, off + |first|, COMMA);
    }
  }

  /** Where the parts of a member lie. */
  lemma EntryLayout(c: seq<byte>, off: nat, e: Entry)
    requires At(c, off, FlatEntry(e))
    ensures var k := off + |e.before|;
            var m := k + |e.key|;
            && At(c, off, e.before) && At(c, k, e.key) && At(c, m, EntryTail(e))
            && m + |EntryTail(e)| == off + |FlatEntry(e)|
  {
    hide At, Flat, EntryTail;
    AtSplit(c, off, e.before, e.key + EntryTail(e));
    AtSplit(c, off + |e.before|, e.key, EntryTail(e));
  }

  lemma TailLayout(c: seq<byte>, m: nat, e: Entry)
    requires At(c, m, EntryTail(e))
    ensures var colon := m + |e.mid|;
            var v := colon + 1 + |e.gap|;
            var end := v + |Flat(e.value)|;
            && At(c, m, e.mid) && colon < |c| && c[colon] == COLON
            && At(c, colon + 1, e.gap) && At(c, v, Flat(e.value)) && At(c, end, e.after)
            && end + |e.after| == m + |EntryTail(e)|
  {
    hide Ascii, At, Flat;
    Spelling();
    var colon := m + |e.mid|;
    var last := Flat(e.value) + e.after;
    AtSplit(c, m, e.mid, [COLON] + (e.gap + last));
    AtSplit(c, colon, [COLON], e.gap + last);
    AtOne(c, colon, COLON);
    AtSplit(c, colon + 1, e.gap, last);
    AtSplit(c, colon + 1 + |e.gap|, Flat(e.value), e.after);
  }

  lemma MemberStep<N>(codec: Codec<N>, c: seq<byte>, off: nat, k: nat, m: nat, colon: nat, v: nat, depth: nat,
                      key: seq<byte>)
    requires Sane(codec) && off <= |c| && k < m <= colon < |c|
    requires SkipWs(c, off) == k && ParseString(c, k) == Some((key, m)) && SkipWs(c, m) == colon && c[colon] == COLON
    requires SkipWs(c, colon + 1) == v
    ensures var r := ParseValue(codec, c, v, depth);
            ParseMember(codec, c, off, depth) ==
            if r.None? then None else Some((Member(key, r.value.0), SkipWs(c, r.value.1)))
  {
    hide ParseValue, ParseString, SkipWs;
  }

  lemma NoKey<N>(codec: Codec<N>, c: seq<byte>, off: nat, k: nat, depth: nat)
    requires Sane(codec) && off <= |c| && k < |c| && SkipWs(c, off) == k && ParseString(c, k) == None
    ensures ParseMember(codec, c, off, depth) == None
  {
    hide ParseValue, ParseString, SkipWs;
  }

  predicate StuckMember<N>(c: seq<byte>, r: Option<(Member<N>, nat)>) {
    r.None? || (r.value.1 < |c| && NumberChar(c[r.value.1]))
  }

  /** One member, up to the separator behind it. */
  lemma {:induction false} EntryReads<N>(codec: Codec<N>, c: seq<byte>, off: nat, e: Entry, depth: nat)
    requires Sane(codec) && WellFormedEntry(codec, e) && depth <= NESTING_LIMIT && At(c, off, FlatEntry(e))
    requires var next := off + |FlatEntry(e)|; next < |c| && c[next] > 32 && !NumberChar(c[next])
    ensures off <= |c| && SkipWs(c, off) < |c| && c[SkipWs(c, off)] == QUOTE
    ensures var r := ParseMember(codec, c, off, depth);
            if EntryReadable(e, NESTING_LIMIT - depth)
            then r == Some((EntryValue(codec, e), off + |FlatEntry(e)|)) else StuckMember(c, r)
    decreases e, 1
  {
    hide Flat, FlatEntry, EntryTail, ParseValue, ParseMember, ParseString, Value, LiteralValue, Readable, WellFormed,
         SkipWs, At, Stuck, IsLiteral, PairedLiteral;
    Separators();
    EntryLayout(c, off, e);
    var k := off + |e.before|;
    var m := k + |e.key|;
    TailLayout(c, m, e);
    var colon := m + |e.mid|;
    var v := colon + 1 + |e.gap|;
    var end := v + |Flat(e.value)|;
    LiteralAt(c, k, e.key);
    SkipBlank(c, off, e.before);
    if !PairedLiteral(e.key) {
      NoKey(codec, c, off, k, depth);
      return;
    }
    SkipBlank(c, m, e.mid);
    FirstByte(codec, e.value);
    AtIndex(c, v, Flat(e.value), 0);
    SkipBlank(c, colon + 1, e.gap);
    AfterValue(c, end, e.after);
    Reads(codec, c, v, e.value, depth);
    MemberStep(codec, c, off, k, m, colon, v, depth, LiteralValue(e.key));
    var r := ParseValue(codec, c, v, depth);
    if !Readable(e.value, NESTING_LIMIT - depth) && r.Some? {
      StuckStops(c, r);
      StuckAt(c, r);
    }
  }

  lemma StuckAt<N>(c: seq<byte>, r: Parsed<N>)
    requires Stuck(c, r) && r.Some?
    ensures r.value.1 < |c| && NumberChar(c[r.value.1])
  {}

  /** One turn of the loop of parse_object. */
  lemma MembersStep<N>(codec: Codec<N>, c: seq<byte>, off: nat, depth: nat)
    requires Sane(codec) && off <= |c|
    ensures var m := ParseMember(codec, c, off, depth);
            ParseMembers(codec, c, off, depth) ==
            if m.None? then None
            else
              var next := m.value.1;
              if next == |c| then None
              else if c[next] == COMMA then
                var rest := ParseMembers(codec, c, next + 1, depth);
                if rest.None? then None else Some(([m.value.0] + rest.value.0, rest.value.1))
              else if c[next] == RBRACE then Some(([m.value.0], next + 1))
              else None
  {
    hide ParseMember;
  }

  /** From the first member to behind the closing brace. */
  lemma {:induction false} EntriesRead<N>(codec: Codec<N>, c: seq<byte>, off: nat, entries: seq<Entry>, depth: nat)
    requires Sane(codec) && entries != [] && depth <= NESTING_LIMIT
    requires forall i | 0 <= i < |entries| :: WellFormedEntry(codec, entries[i])
    requires At(c, off, FlatEntries(entries)) && At(c, off + |FlatEntries(entries)|, [RBRACE])
    ensures off <= |c| && SkipWs(c, off) < |c| && c[SkipWs(c, off)] == QUOTE
    ensures ParseMembers(codec, c, off, depth) ==
            if EntriesReadable(entries, NESTING_LIMIT - depth)
            then Some((MemberValues(codec, entries), off + |FlatEntries(entries)| + 1)) else None
    decreases entries, 1
  {
    hide FlatEntry, FlatEntries, ParseMember, ParseMembers, EntryValue, MemberValues, EntryReadable, EntriesReadable,
         WellFormedEntry, SkipWs, At;
    var room := NESTING_LIMIT - depth;
    Separators();
    EntriesUnfold(codec, entries, room);
    EntriesLayout(c, off, entries);
    AtOne(c, off + |FlatEntries(entries)|, RBRACE);
    var next := off + |FlatEntry(entries[0])|;
    EntryReads(codec, c, off, entries[0], depth);
    MembersStep(codec, c, off, depth);
    var r := ParseMember(codec, c, off, depth);
    if !EntryReadable(entries[0], room) {
      if r.Some? { NumberIsDark(c[r.value.1]); }
    } else if |entries| == 1 {
      assert entries[1..] == [];
      EmptyValues(codec, room);
      assert [EntryValue(codec, entries[0])] + [] == [EntryValue(codec, entries[0])];
    } else {
      EntriesRead(codec, c, next + 1, entries[1..], depth);
    }
  }

  /** parse_value on an opening brace. */
  lemma OpensDict<N>(codec: Codec<N>, c: seq<byte>, off: nat, depth: nat)
    requires Sane(codec) && off + 1 < |c| && c[off] == LBRACE
    ensures var first := SkipWs(c, off + 1);
            var r := ParseValue(codec, c, off, depth);
            && (depth >= NESTING_LIMIT ==> r == None)
            && (depth < NESTING_LIMIT && c[first] == RBRACE ==> r == Some((Obj([]), first + 1)))
            && (depth < NESTING_LIMIT && c[first] == QUOTE ==>
                  var members := ParseMembers(codec, c, off + 1, depth + 1);
                  r == if members.None? then None else Some((Obj(members.value.0), members.value.1)))
  {
    hide ParseItems, ParseMembers, ParseString, ParseNumber, SkipWs, At;
    NoWord(c, off);
    Separators();
    var first := SkipWs(c, off + 1);
    if c[first] == QUOTE {
      SkipNothing(c, first);
      MembersAfterBlank(codec, c, off + 1, first, depth + 1);
    }
  }

  lemma MembersAfterBlank<N>(codec: Codec<N>, c: seq<byte>, off: nat, next: nat, depth: nat)
    requires Sane(codec) && off <= next < |c| && SkipWs(c, off) == next && SkipWs(c, next) == next
    ensures ParseMembers(codec, c, off, depth) == ParseMembers(codec, c, next, depth)
  {
    hide ParseValue, SkipWs, ParseString;
    assert ParseMember(codec, c, off, depth) == ParseMember(codec, c, next, depth);
  }

  lemma DictDef<N>(codec: Codec<N>, x: Syntax, room: nat)
    requires x.Dict? && WellFormed(codec, x)
    ensures Flat(x) == [LBRACE] + ((if x.entries == [] then x.gap else FlatEntries(x.entries)) + [RBRACE])
    ensures Blank(x.gap) && forall i | 0 <= i < |x.entries| :: WellFormedEntry(codec, x.entries[i])
    ensures Value(codec, x) == Obj(MemberValues(codec, x.entries))
    ensures Readable(x, room) <==> room >= 1 && EntriesReadable(x.entries, room - 1)
  {
    hide Ascii, FlatEntries, MemberValues, EntriesReadable, WellFormedEntry;
    Spelling();
  }

  lemma {:induction false} DictReads<N>(codec: Codec<N>, c: seq<byte>, off: nat, x: Syntax, depth: nat)
    requires Sane(codec) && WellFormed(codec, x) && x.Dict? && depth <= NESTING_LIMIT && At(c, off, Flat(x))
    ensures ParseValue(codec, c, off, depth) ==
            if Readable(x, NESTING_LIMIT - depth) then Some((Value(codec, x), off + |Flat(x)|)) else None
    decreases x, 0
  {
    hide Flat, FlatEntries, ParseValue, ParseMembers, Value, MemberValues, Readable, EntriesReadable, WellFormed,
         WellFormedEntry, SkipWs, At;
    DictDef(codec, x, NESTING_LIMIT - depth);
    var inner := if x.entries == [] then x.gap else FlatEntries(x.entries);
    Separators();
    Bracketed(c, off, LBRACE, inner, RBRACE);
    OpensDict(codec, c, off, depth);
    if x.entries == [] {
      SkipBlank(c, off + 1, x.gap);
      EmptyValues(codec, NESTING_LIMIT - depth - 1);
    } else if depth < NESTING_LIMIT {
      EntriesRead(codec, c, off + 1, x.entries, depth + 1);
    }
  }

  // ---------------------------------------------------------------- the theorem

  /** A text, at any place of a buffer and followed by nothing that prolongs a number, is read to
      its value and consumed exactly when it is readable. Otherwise it is refused, except that too
      long a number leaves the parser in its midst. */
  lemma {:induction false} Reads<N>(codec: Codec<N>, c: seq<byte>, off: nat, x: Syntax, depth: nat)
    requires Sane(codec) && WellFormed(codec, x) && depth <= NESTING_LIMIT
    requires At(c, off, Flat(x)) && Delimited(c, off + |Flat(x)|)
    ensures var r := ParseValue(codec, c, off, depth);
            if Readable(x, NESTING_LIMIT - depth) then r == Some((Value(codec, x), off + |Flat(x)|))
            else Stuck(c, r) && (!x.Numeral? ==> r == None)
    decreases x, 1
  {
    hide ParseValue, FlatItems, FlatEntries, Values, MemberValues, ItemsReadable, EntriesReadable, At;
    match x
    case Numeral(digits) => NumeralReads(codec, c, off, digits, depth);
    case List(_, _) => ListReads(codec, c, off, x, depth);
    case Dict(_, _) => DictReads(codec, c, off, x, depth);
    case _ => LeafReads(codec, c, off, x, depth);
  }

  /** Section 8.1 of RFC 8259 lets a parser ignore a byte order mark. */
  predicate IsMark(t: seq<byte>) {
    t == [] || t == [0xEF, 0xBB, 0xBF]
  }

  /** A whole text of RFC 8259, white space around it, followed by its NUL: accepted with its value
      exactly when nested at most 1000 deep and without a number of more than 63 characters. (Without
      the check for trailing garbage, a lone number that is too long is cut off.) */
  lemma TextReads<N>(codec: Codec<N>, mark: seq<byte>, before: seq<byte>, x: Syntax, after: seq<byte>, requireNul: bool)
    requires Sane(codec) && WellFormed(codec, x) && IsMark(mark) && Blank(before) && Blank(after)
    ensures var r := ParseText(codec, mark + before + Flat(x) + after + [0], requireNul);
            if Readable(x, 1000) then r == Some(Value(codec, x))
            else requireNul || !x.Numeral? ==> r == None
  {
    hide Flat, ParseText, ParseValue, Value, Readable, WellFormed, SkipWs, At, Stuck;
    var c := mark + before + Flat(x) + after + [0];
    var start := |mark| + |before|;
    var end := start + |Flat(x)|;
    FirstByte(codec, x);
    TextLayout(c, mark, before, Flat(x), after);
    SkipBlank(c, |mark|, before);
    Marked(c, mark);
    TextIsValue(codec, c, mark, start, requireNul);
    Reads(codec, c, start, x, 0);
    var r := ParseValue(codec, c, start, 0);
    if r.Some? && !Readable(x, NESTING_LIMIT) {
      StuckStops(c, r);
      StuckAt(c, r);
      NumberIsDark(c[r.value.1]);
    }
    SkipToEnd(c, end);
  }

  /** cJSON_ParseWithLengthOpts around parse_value. */
  lemma TextIsValue<N>(codec: Codec<N>, c: seq<byte>, mark: seq<byte>, start: nat, requireNul: bool)
    requires Sane(codec) && c != [] && |mark| <= |c| && start <= |c|
    requires (mark == [] || |mark| == 3) && (|c| > 4 && At(c, 0, BOM)) == (mark != []) && SkipWs(c, |mark|) == start
    ensures var v := ParseValue(codec, c, start, 0);
            ParseText(codec, c, requireNul) ==
            if v.None? then None
            else
              var end := SkipWs(c, v.value.1);
              if requireNul && (end == |c| || c[end] != 0) then None else Some(v.value.0)
  {
    hide ParseValue, SkipWs, At;
  }

  lemma TextLayout(c: seq<byte>, mark: seq<byte>, before: seq<byte>, t: seq<byte>, after: seq<byte>)
    requires c == mark + before + t + after + [0] && Blank(before) && Blank(after) && t != [] && 32 < t[0] < 0x80
    ensures var start := |mark| + |before|;
            && At(c, |mark|, before) && At(c, start, t) && start < |c| && c[start] == t[0]
            && c[..|mark|] == mark && c[|mark|] < 0x80
            && Delimited(c, start + |t|) && |c| >= |mark| + 2
            && (forall i | start + |t| <= i < |c| :: c[i] <= 32)
            && c[|c| - 1] == 0
  {
    var start := |mark| + |before|;
    assert c[|mark|..start] == before && c[start..start + |t|] == t;
  }

  lemma Marked(c: seq<byte>, mark: seq<byte>)
    requires IsMark(mark) && |c| >= |mark| + 2 && c[..|mark|] == mark && c[|mark|] < 0x80
    ensures (|c| > 4 && At(c, 0, BOM)) == (mark != [])
  {
    if mark == [] {
      if At(c, 0, BOM) { AtIndex(c, 0, BOM, 0); }
    } else {
      assert c[0..3] == c[..3];
    }
  }

  lemma {:induction false} SkipToEnd(c: seq<byte>, off: nat)
    requires off < |c| && forall i | off <= i < |c| :: c[i] <= 32
    ensures SkipWs(c, off) == |c| - 1
    decreases |c| - off
  {
    if off + 1 < |c| { SkipToEnd(c, off + 1); }
  }

  // ---------------------------------------------------------------- the texts of the standard

  /** White space of section 2 of RFC 8259. */
  predicate White(t: seq<byte>) {
    forall i | 0 <= i < |t| :: t[i] in {0x20, 0x09, 0x0A, 0x0D}
  }

  /** Behind the digits that stand at `i`. */
  function DigitsEnd(t: seq<byte>, i: nat): (r: nat)
    requires i <= |t|
    ensures i <= r <= |t| && forall k | i <= k < r :: 0x30 <= t[k] <= 0x39
    decreases |t| - i
  {
    if i < |t| && 0x30 <= t[i] <= 0x39 then DigitsEnd(t, i + 1) else i
  }

  /** The exponent of section 6 of RFC 8259 up to the end of the text, or nothing. */
  predicate Exponent(t: seq<byte>, i: nat)
    requires i <= |t|
  {
    i == |t| ||
    ((t[i] == 0x65 || t[i] == 0x45) &&
     var d := if i + 1 < |t| && (t[i + 1] == 0x2B || t[i + 1] == 0x2D) then i + 2 else i + 1;
     d < |t| && DigitsEnd(t, d) == |t|)
  }

  /** A number of section 6 of RFC 8259: sign, digits without a superfluous zero, fraction and
      exponent. */
  predicate IsNumber(t: seq<byte>) {
    var first := if t != [] && t[0] == 0x2D then 1 else 0;
    && first < |t|
    && var point := if t[first] == 0x30 then first + 1 else DigitsEnd(t, first);
    && point > first
    && if point < |t| && t[point] == 0x2E
       then DigitsEnd(t, point + 1) > point + 1 && Exponent(t, DigitsEnd(t, point + 1))
       else Exponent(t, point)
  }

  /** strtod takes a number of the standard whole. */
  ghost predicate TakesNumbers<N>(codec: Codec<N>) {
    forall t :: IsNumber(t) ==> codec.strtod(t).1 == |t|
  }

  /** A JSON text to the letter of RFC 8259. */
  predicate Standard(x: Syntax)
    decreases x
  {
    match x
    case Numeral(digits) => IsNumber(digits)
    case Quoted(text) => IsLiteral(text)
    case List(gap, items) => White(gap) && forall i | 0 <= i < |items| :: StandardItem(items[i])
    case Dict(gap, entries) => White(gap) && forall i | 0 <= i < |entries| :: StandardEntry(entries[i])
    case _ => true
  }

  predicate StandardItem(e: Element)
    decreases e
  {
    White(e.before) && White(e.after) && Standard(e.value)
  }

  predicate StandardEntry(e: Entry)
    decreases e
  {
    White(e.before) && White(e.mid) && White(e.gap) && White(e.after) && IsLiteral(e.key) && Standard(e.value)
  }

  lemma ExponentChars(t: seq<byte>, i: nat)
    requires i <= |t| && Exponent(t, i)
    ensures forall k | i <= k < |t| :: NumberChar(t[k])
  {
    hide DigitsEnd;
  }

  lemma NumberLooksNumeric(t: seq<byte>)
    requires IsNumber(t)
    ensures LooksNumeric(t)
  {
    hide DigitsEnd, Exponent;
    var first := if t[0] == 0x2D then 1 else 0;
    var point := if t[first] == 0x30 then first + 1 else DigitsEnd(t, first);
    var end := if point < |t| && t[point] == 0x2E then DigitsEnd(t, point + 1) else point;
    ExponentChars(t, end);
  }

  lemma WhiteIsBlank(t: seq<byte>)
    requires White(t)
    ensures Blank(t)
  {}

  lemma {:induction false} StandardIsWellFormed<N>(codec: Codec<N>, x: Syntax)
    requires TakesNumbers(codec) && Standard(x)
    ensures WellFormed(codec, x)
    decreases x
  {
    hide IsNumber, IsLiteral, LooksNumeric;
    match x
    case Numeral(digits) => NumberLooksNumeric(digits);
    case List(_, items) =>
      forall i | 0 <= i < |items| ensures WellFormedItem(codec, items[i]) {
        assert StandardItem(items[i]);
        StandardIsWellFormed(codec, items[i].value);
      }
    case Dict(_, entries) =>
      forall i | 0 <= i < |entries| ensures WellFormedEntry(codec, entries[i]) {
        assert StandardEntry(entries[i]);
        StandardIsWellFormed(codec, entries[i].value);
      }
    case _ =>
  }

  /** Every JSON text of RFC 8259, with any white space in it and around it and with a byte order mark
      or without: accepted with its value
      if nested at most 1000 deep, with numbers of at most 63 characters and surrogate escapes in
      pairs, and refused otherwise. */
  lemma StandardTextReads<N>(codec: Codec<N>, mark: seq<byte>, before: seq<byte>, x: Syntax, after: seq<byte>)
    requires Sane(codec) && TakesNumbers(codec) && Standard(x) && IsMark(mark) && White(before) && White(after)
    ensures WellFormed(codec, x)
    ensures ParseText(codec, mark + before + Flat(x) + after + [0], true) ==
            if Readable(x, 1000) then Some(Value(codec, x)) else None
  {
    hide Standard, WellFormed, Value, Readable, Flat, ParseText;
    StandardIsWellFormed(codec, x);
    TextReads(codec, mark, before, x, after, true);
  }

  /** A number of the standard that is refused: 64 digits. */
  lemma LongNumberRefused<N>(codec: Codec<N>)
    requires Sane(codec) && TakesNumbers(codec)
    ensures var digits := Repeat(0x31, 64);
            IsNumber(digits) && ParseText(codec, digits + [0], true) == None
  {
    hide ParseText, IsNumber, WellFormed;
    var digits := Repeat(0x31, 64);
    OnesAreNumber(digits);
    StandardTextReads(codec, [], [], Numeral(digits), []);
    assert [] + [] + digits + [] + [0] == digits + [0];
  }

  lemma OnesAreNumber(t: seq<byte>)
    requires t != [] && forall k | 0 <= k < |t| :: t[k] == 0x31
    ensures IsNumber(t)
  {
    AllDigits(t, 0);
  }

  lemma {:induction false} AllDigits(t: seq<byte>, i: nat)
    requires i <= |t| && forall k | i <= k < |t| :: 0x30 <= t[k] <= 0x39
    ensures DigitsEnd(t, i) == |t|
    decreases |t| - i
  {
    if i < |t| { AllDigits(t, i + 1); }
  }

  // ---------------------------------------------------------------- what is accepted fits

  /** Whatever is accepted, by the standard or not, opens at most 1000 arrays and objects inside one
      another. */
  lemma {:induction false} AcceptedFits<N>(codec: Codec<N>, c: seq<byte>, off: nat, depth: nat)
    requires Sane(codec) && off <= |c| && depth <= NESTING_LIMIT && ParseValue(codec, c, off, depth).Some?
    ensures Fits(ParseValue(codec, c, off, depth).value.0, NESTING_LIMIT - depth)
    decreases |c| - off, 0
  {
    hide ParseItems, ParseMembers, ParseString, Run, SkipWs, At;
    if off < |c| && depth < NESTING_LIMIT && SkipWs(c, off + 1) < |c| {
      var first := SkipWs(c, off + 1);
      if c[off] == LBRACKET && ParseItems(codec, c, first, depth + 1).Some? {
        AcceptedItemsFit(codec, c, first, depth + 1);
      } else if c[off] == LBRACE && ParseMembers(codec, c, first, depth + 1).Some? {
        AcceptedMembersFit(codec, c, first, depth + 1);
      }
    }
  }

  lemma {:induction false} AcceptedItemsFit<N>(codec: Codec<N>, c: seq<byte>, off: nat, depth: nat)
    requires Sane(codec) && off <= |c| && depth <= NESTING_LIMIT && ParseItems(codec, c, off, depth).Some?
    ensures var items := ParseItems(codec, c, off, depth).value.0;
            forall i | 0 <= i < |items| :: Fits(items[i], NESTING_LIMIT - depth)
    decreases |c| - off, 1
  {
    hide ParseValue, SkipWs, Fits;
    var start := SkipWs(c, off);
    AcceptedFits(codec, c, start, depth);
    var next := SkipWs(c, ParseValue(codec, c, start, depth).value.1);
    if c[next] == COMMA { AcceptedItemsFit(codec, c, next + 1, depth); }
  }

  lemma {:induction false} AcceptedMembersFit<N>(codec: Codec<N>, c: seq<byte>, off: nat, depth: nat)
    requires Sane(codec) && off <= |c| && depth <= NESTING_LIMIT && ParseMembers(codec, c, off, depth).Some?
    ensures var members := ParseMembers(codec, c, off, depth).value.0;
            forall i | 0 <= i < |members| :: Fits(members[i].value, NESTING_LIMIT - depth)
    decreases |c| - off, 2
  {
    hide ParseMember, SkipWs, Fits;
    AcceptedMemberFits(codec, c, off, depth);
    var next := ParseMember(codec, c, off, depth).value.1;
    if c[next] == COMMA { AcceptedMembersFit(codec, c, next + 1, depth); }
  }

  lemma {:induction false} AcceptedMemberFits<N>(codec: Codec<N>, c: seq<byte>, off: nat, depth: nat)
    requires Sane(codec) && off <= |c| && depth <= NESTING_LIMIT && ParseMember(codec, c, off, depth).Some?
    ensures Fits(ParseMember(codec, c, off, depth).value.0.value, NESTING_LIMIT - depth)
    decreases |c| - off, 1
  {
    hide ParseValue, ParseString, SkipWs, Fits;
    var key := ParseString(c, SkipWs(c, off)).value;
    AcceptedFits(codec, c, SkipWs(c, SkipWs(c, key.1) + 1), depth);
  }

  lemma AcceptedTextFits<N>(codec: Codec<N>, c: seq<byte>, requireNul: bool)
    requires Sane(codec) && ParseText(codec, c, requireNul).Some?
    ensures Fits(ParseText(codec, c, requireNul).value, 1000)
  {
    hide ParseValue, SkipWs, Fits, At;
    AcceptedFits(codec, c, SkipWs(c, if |c| > 4 && At(c, 0, BOM) then 3 else 0), 0);
  }
}
