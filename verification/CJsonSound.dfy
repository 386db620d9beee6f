/** The other half of the grammar: whatever the parser accepts is a text, spelled in characters, whose
    literals and numbers are those its decoder and strtod know. */
module CJsonSound {
  import opened Bytes
  import opened Options
  import opened CJsonString
  import opened CJsonText
  import opened CJsonGrammar

  // ---------------------------------------------------------------- texts and what they denote

  /** A number: minus or digit first, and strtod takes just these characters of the run they begin. */
  ghost predicate DenotesNumber<N>(codec: Codec<N>, t: seq<byte>, n: N) {
    && LooksNumeric(t)
    && exists run :: |t| <= |run| && run[..|t|] == t && codec.strtod(run) == (n, |t|)
  }

  ghost predicate DenotesString(t: seq<byte>, s: seq<byte>) {
    t != [] && ParseString(t, 0) == Some((s, |t|))
  }

  ghost predicate Denotes<N>(codec: Codec<N>, x: Syntax, v: Json<N>)
    decreases x
  {
    match x
    case NullWord => v == Null
    case FalseWord => v == False
    case TrueWord => v == True
    case Numeral(digits) => v.Number? && DenotesNumber(codec, digits, v.n)
    case Quoted(text) => v.Str? && DenotesString(text, v.s)
    case List(gap, items) =>
      v.Arr? && Blank(gap) && |items| == |v.items|
      && forall i | 0 <= i < |items| :: DenotesItem(codec, items[i], v.items[i])
    case Dict(gap, entries) =>
      v.Obj? && Blank(gap) && |entries| == |v.members|
      && forall i | 0 <= i < |entries| :: DenotesMember(codec, entries[i], v.members[i])
  }

  ghost predicate DenotesItem<N>(codec: Codec<N>, e: Element, v: Json<N>)
    decreases e
  {
    Blank(e.before) && Blank(e.after) && Denotes(codec, e.value, v)
  }

  ghost predicate DenotesMember<N>(codec: Codec<N>, e: Entry, m: Member<N>)
    decreases e
  {
    && Blank(e.before) && Blank(e.mid) && Blank(e.gap) && Blank(e.after)
    && DenotesString(e.key, m.key) && Denotes(codec, e.value, m.value)
  }

  // ---------------------------------------------------------------- a literal by itself

  lemma Hex4Local(c: seq<byte>, off: nat, end: nat, i: nat)
    requires off <= i && i + 4 <= end <= |c|
    ensures Hex4(c[off..end], i - off) == Hex4(c, i)
  {
    hide HexDigit;
  }

  lemma CodePointLocal(c: seq<byte>, off: nat, end: nat, i: nat, q: nat)
    requires off <= i < q < end <= |c|
    ensures CodePoint(c[off..end], i - off, q - off) ==
            if CodePoint(c, i, q).None? then None else Some(CodePoint(c, i, q).value)
  {
    hide Hex4;
    if i + 6 <= q { Hex4Local(c, off, end, i + 2); }
    if i + 12 <= q { Hex4Local(c, off, end, i + 8); }
  }

  lemma {:induction false} DecodedLocal(c: seq<byte>, off: nat, end: nat, i: nat, q: nat)
    requires off <= i && off <= q < end <= |c|
    ensures Decoded(c[off..end], i - off, q - off) == Decoded(c, i, q)
    decreases q - i
  {
    hide Simple, CodePoint, Utf8;
    if i < q {
      var t := c[off..end];
      assert t[i - off] == c[i] && t[i - off + 1] == c[i + 1];
      if c[i] != BACKSLASH {
        DecodedLocal(c, off, end, i + 1, q);
      } else if c[i + 1] == LOWER_U {
        CodePointLocal(c, off, end, i, q);
        if CodePoint(c, i, q).Some? { DecodedLocal(c, off, end, i + CodePoint(c, i, q).value.1, q); }
      } else {
        DecodedLocal(c, off, end, i + 2, q);
      }
    }
  }

  lemma {:induction false} ClosingLocal(c: seq<byte>, off: nat, end: nat, i: nat)
    requires off <= i <= end <= |c| && ClosingQuote(c, i).Some? && ClosingQuote(c, i).value < end
    ensures ClosingQuote(c[off..end], i - off) == Some(ClosingQuote(c, i).value - off)
    decreases |c| - i
  {
    var t := c[off..end];
    assert i < end && t[i - off] == c[i];
    if c[i] == QUOTE {
    } else if c[i] == BACKSLASH {
      ClosingLocal(c, off, end, i + 2);
    } else {
      ClosingLocal(c, off, end, i + 1);
    }
  }

  lemma StringLocal(c: seq<byte>, off: nat)
    requires off < |c| && ParseString(c, off).Some?
    ensures var (s, end) := ParseString(c, off).value; DenotesString(c[off..end], s)
  {
    hide ClosingQuote, Decoded;
    var end := ParseString(c, off).value.1;
    ClosingLocal(c, off, end, off + 1);
    DecodedLocal(c, off, end, off + 1, end - 1);
  }

  // ---------------------------------------------------------------- white space and numbers

  lemma {:induction false} SkippedIsBlank(c: seq<byte>, off: nat)
    requires off <= |c|
    ensures Blank(c[off..SkipWs(c, off)]) && SkipWs(c, SkipWs(c, off)) == SkipWs(c, off)
    decreases |c| - off
  {
    if off + 1 < |c| && c[off] <= 32 {
      SkippedIsBlank(c, off + 1);
      assert c[off..SkipWs(c, off)] == [c[off]] + c[off + 1..SkipWs(c, off)];
    }
  }

  lemma {:induction false} RunIs(c: seq<byte>, off: nat, max: nat)
    requires off <= |c|
    ensures var r := Run(c, off, max); r == c[off..off + |r|] && forall i | 0 <= i < |r| :: NumberChar(r[i])
    decreases max
  {
    hide NumberChar;
    if max > 0 && off < |c| && NumberChar(c[off]) {
      RunIs(c, off + 1, max - 1);
      var r := Run(c, off + 1, max - 1);
      assert c[off..off + 1 + |r|] == [c[off]] + c[off + 1..off + 1 + |r|];
    }
  }

  lemma NumberSound<N>(codec: Codec<N>, c: seq<byte>, off: nat)
    requires Sane(codec) && off < |c| && (c[off] == 0x2D || 0x30 <= c[off] <= 0x39) && ParseNumber(codec, c, off).Some?
    ensures var (v, end) := ParseNumber(codec, c, off).value;
            v.Number? && DenotesNumber(codec, c[off..end], v.n)
  {
    hide Run;
    var run := Run(c, off, 63);
    RunIs(c, off, 63);
    var t := c[off..off + codec.strtod(run).1];
    assert run[..|t|] == t;
    assert forall i | 0 <= i < |t| :: t[i] == run[i];
  }

  // ---------------------------------------------------------------- values

  /** What parse_value accepts is the text of a value, to the byte. */
  lemma {:induction false} ValueSound<N>(codec: Codec<N>, c: seq<byte>, off: nat, depth: nat) returns (x: Syntax)
    requires Sane(codec) && off <= |c| && ParseValue(codec, c, off, depth).Some?
    ensures var (v, end) := ParseValue(codec, c, off, depth).value;
            Denotes(codec, x, v) && Flat(x) == c[off..end]
    decreases |c| - off, 1
  {
    hide Ascii, ParseItems, ParseMembers, ParseString, ParseNumber, SkipWs, DenotesNumber, DenotesString, DenotesItem,
         DenotesMember, FlatItems, FlatEntries;
    Spelling();
    var end := ParseValue(codec, c, off, depth).value.1;
    if At(c, off, NULL_TEXT) {
      x := NullWord;
    } else if At(c, off, FALSE_TEXT) {
      x := FalseWord;
    } else if At(c, off, TRUE_TEXT) {
      x := TrueWord;
    } else if c[off] == QUOTE {
      StringLocal(c, off);
      x := Quoted(c[off..end]);
    } else if c[off] == LBRACKET {
      x := ListSound(codec, c, off, depth);
    } else if c[off] == LBRACE {
      x := DictSound(codec, c, off, depth);
    } else {
      NumberSound(codec, c, off);
      x := Numeral(c[off..end]);
    }
  }

  lemma ListParts<N>(codec: Codec<N>, c: seq<byte>, off: nat, depth: nat)
    requires Sane(codec) && off < |c| && c[off] == LBRACKET && ParseValue(codec, c, off, depth).Some?
    ensures var (v, end) := ParseValue(codec, c, off, depth).value;
            var first := SkipWs(c, off + 1);
            && first < |c|
            && if c[first] == RBRACKET then v == Arr([]) && end == first + 1
               else
                 var items := ParseItems(codec, c, off + 1, depth + 1);
                 items.Some? && v == Arr(items.value.0) && end == items.value.1
  {
    hide ParseItems, ParseMembers, ParseString, ParseNumber, SkipWs, At;
    NoWord(c, off);
    SkippedIsBlank(c, off + 1);
    var first := SkipWs(c, off + 1);
    ItemStep(codec, c, off + 1, first, depth + 1);
    ItemStep(codec, c, first, first, depth + 1);
  }

  lemma {:induction false} ListSound<N>(codec: Codec<N>, c: seq<byte>, off: nat, depth: nat) returns (x: Syntax)
    requires Sane(codec) && off < |c| && c[off] == LBRACKET && ParseValue(codec, c, off, depth).Some?
    ensures var (v, end) := ParseValue(codec, c, off, depth).value;
            Denotes(codec, x, v) && Flat(x) == c[off..end]
    decreases |c| - off, 0
  {
    hide ParseValue, ParseItems, SkipWs, Denotes, DenotesItem, Flat, FlatItems, Blank;
    ListParts(codec, c, off, depth);
    var end, first := ParseValue(codec, c, off, depth).value.1, SkipWs(c, off + 1);
    SkippedIsBlank(c, off + 1);
    if c[first] == RBRACKET {
      x := List(c[off + 1..first], []);
      ListText(codec, c, off, end, x, []);
    } else {
      var items := ItemsSound(codec, c, off + 1, depth + 1);
      x := List([], items);
      ListText(codec, c, off, end, x, ParseItems(codec, c, off + 1, depth + 1).value.0);
    }
  }

  lemma ListText<N>(codec: Codec<N>, c: seq<byte>, off: nat, end: nat, x: Syntax, vs: seq<Json<N>>)
    requires off + 2 <= end <= |c| && c[off] == LBRACKET && c[end - 1] == RBRACKET && x.List?
    requires |x.items| == |vs| && forall i | 0 <= i < |vs| :: DenotesItem(codec, x.items[i], vs[i])
    requires if x.items == [] then x.gap == c[off + 1..end - 1] && Blank(x.gap)
             else x.gap == [] && FlatItems(x.items) == c[off + 1..end - 1]
    ensures Denotes(codec, x, Arr(vs)) && Flat(x) == c[off..end]
  {
    hide Ascii, DenotesItem, FlatItems;
    Spelling();
    Wrapped(c, off, end);
  }

  lemma ItemOf<N>(codec: Codec<N>, c: seq<byte>, off: nat, start: nat, at: nat, next: nat, x: Syntax, v: Json<N>)
    returns (e: Element)
    requires off <= start <= at <= next <= |c| && Flat(x) == c[start..at] && Denotes(codec, x, v)
    requires Blank(c[off..start]) && Blank(c[at..next])
    ensures FlatItem(e) == c[off..next] && DenotesItem(codec, e, v)
  {
    hide Flat, Denotes;
    e := Element(c[off..start], x, c[at..next]);
    assert c[off..next] == c[off..start] + (c[start..at] + c[at..next]);
  }

  lemma ItemsText(c: seq<byte>, e: Element, rest: seq<Element>, off: nat, next: nat, end: nat)
    requires off <= next < end <= |c| && c[next] == COMMA && rest != []
    requires FlatItem(e) == c[off..next] && FlatItems(rest) == c[next + 1..end]
    ensures FlatItems([e] + rest) == c[off..end]
  {
    hide FlatItem, FlatItems;
    FlatItemsDef([e] + rest);
    assert ([e] + rest)[1..] == rest;
    assert c[off..end] == c[off..next] + ([COMMA] + c[next + 1..end]);
    Spelling();
  }

  lemma Wrapped(c: seq<byte>, off: nat, end: nat)
    requires off + 2 <= end <= |c|
    ensures c[off..end] == [c[off]] + (c[off + 1..end - 1] + [c[end - 1]])
  {}

  lemma {:induction false} ItemsSound<N>(codec: Codec<N>, c: seq<byte>, off: nat, depth: nat)
    returns (items: seq<Element>)
    requires Sane(codec) && off <= |c| && ParseItems(codec, c, off, depth).Some?
    ensures var (vs, end) := ParseItems(codec, c, off, depth).value;
            && items != [] && |items| == |vs| && (forall i | 0 <= i < |items| :: DenotesItem(codec, items[i], vs[i]))
            && FlatItems(items) == c[off..end - 1] && c[end - 1] == RBRACKET
    decreases |c| - off, 2
  {
    hide Ascii, Flat, FlatItem, FlatItems, ParseValue, ParseItems, SkipWs, Blank, Denotes, DenotesItem;
    Spelling();
    var start := SkipWs(c, off);
    ItemStep(codec, c, off, start, depth);
    var (v, at) := ParseValue(codec, c, start, depth).value;
    var next := SkipWs(c, at);
    var x := ValueSound(codec, c, start, depth);
    SkippedIsBlank(c, off);
    SkippedIsBlank(c, at);
    var e := ItemOf(codec, c, off, start, at, next, x, v);
    if c[next] == COMMA {
      var rest := ItemsSound(codec, c, next + 1, depth);
      items := [e] + rest;
      ItemsText(c, e, rest, off, next, ParseItems(codec, c, off, depth).value.1 - 1);
    } else {
      items := [e];
      FlatItemsDef(items);
    }
  }

  lemma DictParts<N>(codec: Codec<N>, c: seq<byte>, off: nat, depth: nat)
    requires Sane(codec) && off < |c| && c[off] == LBRACE && ParseValue(codec, c, off, depth).Some?
    ensures var (v, end) := ParseValue(codec, c, off, depth).value;
            var first := SkipWs(c, off + 1);
            && first < |c|
            && if c[first] == RBRACE then v == Obj([]) && end == first + 1
               else
                 var members := ParseMembers(codec, c, off + 1, depth + 1);
                 members.Some? && v == Obj(members.value.0) && end == members.value.1
  {
    hide ParseItems, ParseMembers, ParseString, ParseNumber, SkipWs, At;
    NoWord(c, off);
    SkippedIsBlank(c, off + 1);
    MembersAfterBlank(codec, c, off + 1, SkipWs(c, off + 1), depth + 1);
  }

  lemma {:induction false} DictSound<N>(codec: Codec<N>, c: seq<byte>, off: nat, depth: nat) returns (x: Syntax)
    requires Sane(codec) && off < |c| && c[off] == LBRACE && ParseValue(codec, c, off, depth).Some?
    ensures var (v, end) := ParseValue(codec, c, off, depth).value;
            Denotes(codec, x, v) && Flat(x) == c[off..end]
    decreases |c| - off, 0
  {
    hide ParseValue, ParseMembers, SkipWs, Denotes, DenotesMember, Flat, FlatEntries, Blank;
    DictParts(codec, c, off, depth);
    var end, first := ParseValue(codec, c, off, depth).value.1, SkipWs(c, off + 1);
    SkippedIsBlank(c, off + 1);
    if c[first] == RBRACE {
      x := Dict(c[off + 1..first], []);
      DictText(codec, c, off, end, x, []);
    } else {
      var entries := MembersSound(codec, c, off + 1, depth + 1);
      x := Dict([], entries);
      DictText(codec, c, off, end, x, ParseMembers(codec, c, off + 1, depth + 1).value.0);
    }
  }

  lemma DictText<N>(codec: Codec<N>, c: seq<byte>, off: nat, end: nat, x: Syntax, ms: seq<Member<N>>)
    requires off + 2 <= end <= |c| && c[off] == LBRACE && c[end - 1] == RBRACE && x.Dict?
    requires |x.entries| == |ms| && forall i | 0 <= i < |ms| :: DenotesMember(codec, x.entries[i], ms[i])
    requires if x.entries == [] then x.gap == c[off + 1..end - 1] && Blank(x.gap)
             else x.gap == [] && FlatEntries(x.entries) == c[off + 1..end - 1]
    ensures Denotes(codec, x, Obj(ms)) && Flat(x) == c[off..end]
  {
    hide Ascii, DenotesMember, FlatEntries;
    Spelling();
    Wrapped(c, off, end);
  }

  lemma {:induction false} MembersSound<N>(codec: Codec<N>, c: seq<byte>, off: nat, depth: nat)
    returns (entries: seq<Entry>)
    requires Sane(codec) && off <= |c| && ParseMembers(codec, c, off, depth).Some?
    ensures var (ms, end) := ParseMembers(codec, c, off, depth).value;
            && entries != [] && |entries| == |ms|
            && (forall i | 0 <= i < |entries| :: DenotesMember(codec, entries[i], ms[i]))
            && FlatEntries(entries) == c[off..end - 1] && c[end - 1] == RBRACE
    decreases |c| - off, 3
  {
    hide Ascii, FlatEntry, FlatEntries, ParseMember, ParseMembers, SkipWs, DenotesMember;
    Spelling();
    MembersStep(codec, c, off, depth);
    var (m, next) := ParseMember(codec, c, off, depth).value;
    var e := MemberSound(codec, c, off, depth);
    if c[next] == COMMA {
      var rest := MembersSound(codec, c, next + 1, depth);
      entries := [e] + rest;
      EntriesText(c, e, rest, off, next, ParseMembers(codec, c, off, depth).value.1 - 1);
    } else {
      entries := [e];
      FlatEntriesDef(entries);
    }
  }

  lemma EntriesText(c: seq<byte>, e: Entry, rest: seq<Entry>, off: nat, next: nat, end: nat)
    requires off <= next < end <= |c| && c[next] == COMMA && rest != []
    requires FlatEntry(e) == c[off..next] && FlatEntries(rest) == c[next + 1..end]
    ensures FlatEntries([e] + rest) == c[off..end]
  {
    hide FlatEntry, FlatEntries;
    FlatEntriesDef([e] + rest);
    assert ([e] + rest)[1..] == rest;
    assert c[off..end] == c[off..next] + ([COMMA] + c[next + 1..end]);
  }

  lemma FlatEntriesDef(entries: seq<Entry>)
    requires entries != []
    ensures |entries| == 1 ==> FlatEntries(entries) == FlatEntry(entries[0])
    ensures |entries| > 1 ==> FlatEntries(entries) == FlatEntry(entries[0]) + ([COMMA] + FlatEntries(entries[1..]))
  {
    hide Ascii, FlatEntry;
    Spelling();
    assert FlatEntry(entries[0]) + [] == FlatEntry(entries[0]);
  }

  lemma {:induction false} MemberSound<N>(codec: Codec<N>, c: seq<byte>, off: nat, depth: nat) returns (e: Entry)
    requires Sane(codec) && off <= |c| && ParseMember(codec, c, off, depth).Some?
    ensures var (m, next) := ParseMember(codec, c, off, depth).value;
            DenotesMember(codec, e, m) && FlatEntry(e) == c[off..next]
    decreases |c| - off, 2
  {
    hide Flat, FlatEntry, ParseValue, ParseString, SkipWs, Blank, Denotes, DenotesString;
    var k := SkipWs(c, off);
    var m := ParseString(c, k).value.1;
    var colon := SkipWs(c, m);
    var start := SkipWs(c, colon + 1);
    var at := ParseValue(codec, c, start, depth).value.1;
    var next := SkipWs(c, at);
    SkippedIsBlank(c, off);
    StringLocal(c, k);
    SkippedIsBlank(c, m);
    SkippedIsBlank(c, colon + 1);
    var x := ValueSound(codec, c, start, depth);
    SkippedIsBlank(c, at);
    e := Entry(c[off..k], c[k..m], c[m..colon], c[colon + 1..start], x, c[at..next]);
    EntryText(c, e, off, k, m, colon, start, at, next);
  }

  lemma EntryText(c: seq<byte>, e: Entry, off: nat, k: nat, m: nat, colon: nat, start: nat, at: nat, next: nat)
    requires off <= k <= m <= colon < start <= at <= next <= |c| && c[colon] == COLON && Flat(e.value) == c[start..at]
    requires e.before == c[off..k] && e.key == c[k..m] && e.mid == c[m..colon] && e.gap == c[colon + 1..start]
    requires e.after == c[at..next]
    ensures FlatEntry(e) == c[off..next]
  {
    hide Ascii, Flat;
    Spelling();
    assert c[colon + 1..next] == e.gap + (c[start..at] + e.after);
    assert c[m..next] == e.mid + ([COLON] + c[colon + 1..next]);
    assert c[off..next] == e.before + (e.key + c[m..next]);
  }

  // ---------------------------------------------------------------- whole texts

  /** Whatever is accepted is a text with white space around it, and, when a NUL is asked for behind
      it, nothing else. */
  lemma AcceptedIsText<N>(codec: Codec<N>, c: seq<byte>, requireNul: bool)
    returns (mark: seq<byte>, before: seq<byte>, x: Syntax, rest: seq<byte>)
    requires Sane(codec) && ParseText(codec, c, requireNul).Some?
    ensures IsMark(mark) && Blank(before) && Denotes(codec, x, ParseText(codec, c, requireNul).value)
    ensures c == mark + before + Flat(x) + rest
    ensures requireNul ==> rest != [] && rest[|rest| - 1] == 0 && Blank(rest)
  {
    hide Flat, ParseValue, SkipWs, Denotes, At;
    var from := if |c| > 4 && At(c, 0, BOM) then 3 else 0;
    var start := SkipWs(c, from);
    var end := ParseValue(codec, c, start, 0).value.1;
    SkippedIsBlank(c, from);
    x := ValueSound(codec, c, start, 0);
    mark, before, rest := c[..from], c[from..start], c[end..];
    if from == 3 { MarkIs(c); }
    assert c == c[..from] + c[from..start] + c[start..end] + c[end..];
    if requireNul { NulIsLast(c, end); }
  }

  lemma MarkIs(c: seq<byte>)
    requires At(c, 0, BOM)
    ensures |c| >= 3 && c[..3] == [0xEF, 0xBB, 0xBF]
  {
    assert c[0..3] == c[..3];
  }

  /** White space is skipped up to a NUL only if that is the last byte. */
  lemma {:induction false} NulIsLast(c: seq<byte>, off: nat)
    requires off <= |c| && SkipWs(c, off) < |c| && c[SkipWs(c, off)] == 0
    ensures off < |c| && SkipWs(c, off) == |c| - 1 && Blank(c[off..])
    decreases |c| - off
  {
    if off + 1 < |c| {
      NulIsLast(c, off + 1);
      assert c[off..] == [c[off]] + c[off + 1..];
    }
  }
}
