/** The printer as it runs: an output buffer that is grown on demand, written at an offset, and
    measured again with strlen. */
module CJsonPrinter {
  import opened Bytes
  import opened Options
  import opened CJsonString
  import opened CJsonText

  const INT_MAX := 0x7FFF_FFFF

  /** What the C library owes the printer: the text of a number looks like one and fits
      number_buffer. */
  predicate Printable<N>(codec: Codec<N>, v: Json<N>)
    decreases v
  {
    match v
    case Number(n) => NumberText(codec.render(n))
    case Arr(items) => forall i | 0 <= i < |items| :: Printable(codec, items[i])
    case Obj(members) => forall i | 0 <= i < |members| :: Printable(codec, members[i].value)
    case _ => true
  }

  lemma {:induction false} FaithfulIsPrintable<N>(codec: Codec<N>, v: Json<N>)
    requires NumbersReadBack(codec, v)
    ensures Printable(codec, v)
    decreases v
  {
    match v
    case Arr(items) =>
      forall i | 0 <= i < |items| ensures Printable(codec, items[i]) { FaithfulIsPrintable(codec, items[i]); }
    case Obj(members) =>
      forall i | 0 <= i < |members| ensures Printable(codec, members[i].value) {
        FaithfulIsPrintable(codec, members[i].value);
      }
    case _ =>
  }

  // ---------------------------------------------------------------- printed text has no NUL

  lemma {:induction false} EscapedNoNul(s: seq<byte>)
    requires NoNul(s)
    ensures NoNul(Escaped(s))
  {
    if s != [] {
      EscapedNoNul(s[1..]);
      assert NoNul(Escape(s[0]));
    }
  }

  lemma LiteralNoNul(s: seq<byte>)
    ensures NoNul(Literal(CString(s)))
  {
    hide Escaped, CString;
    CStringIsWhole(s);
    EscapedNoNul(CString(s));
  }

  lemma NumberNoNul<N>(codec: Codec<N>, n: N)
    requires NumberText(codec.render(n))
    ensures NoNul(codec.render(n))
  {}

  lemma {:induction false} PrintNoNul<N>(codec: Codec<N>, v: Json<N>, fmt: bool, depth: nat)
    requires Printable(codec, v)
    ensures NoNul(Print(codec, v, fmt, depth))
    decreases v, 0
  {
    hide PrintItems, PrintMembers, Literal, CString;
    match v
    case Number(n) => NumberNoNul(codec, n);
    case Str(s) => LiteralNoNul(s);
    case Arr(items) => ItemsNoNul(codec, items, fmt, depth + 1);
    case Obj(members) => MembersNoNul(codec, members, fmt, depth + 1);
    case _ =>
  }

  lemma {:induction false} ItemsNoNul<N>(codec: Codec<N>, items: seq<Json<N>>, fmt: bool, depth: nat)
    requires forall i | 0 <= i < |items| :: Printable(codec, items[i])
    ensures NoNul(PrintItems(codec, items, fmt, depth))
    decreases items, 1
  {
    hide Print;
    if items != [] {
      PrintNoNul(codec, items[0], fmt, depth);
      ItemsNoNul(codec, items[1..], fmt, depth);
    }
  }

  lemma {:induction false} MembersNoNul<N>(codec: Codec<N>, members: seq<Member<N>>, fmt: bool, depth: nat)
    requires forall i | 0 <= i < |members| :: Printable(codec, members[i].value)
    ensures NoNul(PrintMembers(codec, members, fmt, depth))
    decreases members, 1
  {
    hide Print, Literal, CString;
    if members != [] {
      LiteralNoNul(members[0].key);
      PrintNoNul(codec, members[0].value, fmt, depth);
      MembersNoNul(codec, members[1..], fmt, depth);
    }
  }

  // ---------------------------------------------------------------- the print buffer

  class PrintBuffer<N> {
    const codec: Codec<N>
    const format: bool
    const noalloc: bool
    var buffer: seq<byte>
    var offset: nat
    var depth: nat

    constructor (codec: Codec<N>, buffer: seq<byte>, format: bool, noalloc: bool)
      ensures this.codec == codec && this.buffer == buffer && this.format == format && this.noalloc == noalloc
      ensures offset == 0 && depth == 0
    {
      this.codec, this.buffer, this.format, this.noalloc, offset, depth := codec, buffer, format, noalloc, 0, 0;
    }

    /** The offset is inside the buffer, or nothing was allocated yet. */
    ghost predicate Valid()
      reads this
    {
      offset <= |buffer| && (|buffer| > 0 ==> offset < |buffer|)
    }

    /** ensure: room for `needed` more bytes and a terminator, growing to twice the need. */
    method Ensure(needed: nat) returns (ok: bool)
      modifies this`buffer
      ensures |old(buffer)| <= |buffer| && buffer[..|old(buffer)|] == old(buffer)
      ensures ok ==> offset + needed + 1 <= |buffer|
      ensures noalloc ==> buffer == old(buffer)
      ensures old(Valid()) ==> Valid()
      ensures old(Valid()) && !noalloc && offset + needed + 1 <= INT_MAX / 2 ==> ok
    {
      if |buffer| > 0 && offset >= |buffer| { return false; }
      if needed > INT_MAX { return false; }
      var total := needed + offset + 1;
      if total <= |buffer| { return true; }
      if noalloc { return false; }
      var newsize;
      if total > INT_MAX / 2 {
        if total > INT_MAX { return false; }
        newsize := INT_MAX;
      } else {
        newsize := total * 2;
      }
      // realloc keeps the old bytes; the new ones are arbitrary
      var added: seq<byte> :| |added| == newsize - |buffer|
        by { assert |seq(newsize - |buffer|, _ => 0 as byte)| == newsize - |buffer|; }
      buffer := buffer + added;
      ok := true;
    }

    /** strcpy, memcpy and single stores: bytes from `at` on are overwritten. */
    method Store(at: nat, text: seq<byte>)
      requires at + |text| <= |buffer|
      modifies this`buffer
      ensures buffer == old(buffer)[..at] + text + old(buffer)[at + |text|..]
    {
      buffer := buffer[..at] + text + buffer[at + |text|..];
    }

    /** update_offset: strlen from the offset on. */
    method UpdateOffset(ghost t: seq<byte>, ghost start: nat)
      requires Valid() && start <= offset <= start + |t| < |buffer|
      requires NoNul(t) && buffer[start..start + |t|] == t && buffer[start + |t|] == 0
      modifies this`offset
      ensures Valid() && offset == start + |t|
    {
      while buffer[offset] != 0
        invariant start <= offset <= start + |t|
        decreases start + |t| - offset
      {
        offset := offset + 1;
      }
    }

    /** `t` stands at `start` with a terminator behind it, and nothing before it changed. */
    ghost predicate Stands(pre: seq<byte>, t: seq<byte>)
      reads this
    {
      var start := |pre|;
      && start + |t| < |buffer|
      && buffer[..start] == pre && buffer[start..start + |t|] == t && buffer[start + |t|] == 0
    }

    /** Everything up to the offset is `pre` followed by `done`. */
    ghost predicate Upto(pre: seq<byte>, done: seq<byte>)
      reads this
    {
      offset == |pre| + |done| && offset <= |buffer| && buffer[..offset] == pre + done
    }

    /** Whether the text surely fits: the buffer may grow and stays below the growth limit. */
    ghost predicate Roomy(t: seq<byte>)
      reads this
    {
      !noalloc && offset + |t| + 8 <= INT_MAX / 2
    }

    /** A terminated piece of text that does not move the offset. */
    method Emit(t: seq<byte>, needed: nat) returns (ok: bool)
      requires Valid() && |t| + 1 <= needed
      modifies this`buffer
      ensures Valid()
      ensures ok ==> Stands(old(buffer)[..old(offset)], t)
      ensures old(Roomy(t)) && needed <= |t| + 2 ==> ok
    {
      ghost var pre := buffer[..offset];
      ok := Ensure(needed);
      if !ok { return; }
      assert buffer[..offset] == pre;
      Store(offset, t + [0]);
      assert buffer[offset..offset + |t|] == t;
    }

    /** The closing bracket behind what is already there. */
    method EmitAfter(t: seq<byte>, needed: nat, ghost pre: seq<byte>, ghost done: seq<byte>) returns (ok: bool)
      requires Valid() && |t| + 1 <= needed <= |t| + 2 && Upto(pre, done)
      modifies this`buffer
      ensures Valid() && (ok ==> Stands(pre, done + t))
      ensures old(Roomy(t)) ==> ok
    {
      ok := Emit(t, needed);
      if ok { StandsJoin(pre, done, t); }
    }

    /** print_value */
    method PrintValueHere(v: Json<N>) returns (ok: bool)
      requires Valid() && Printable(codec, v)
      modifies this
      ensures Valid() && (ok ==> depth == old(depth))
      ensures ok ==> Stands(old(buffer)[..old(offset)], Print(codec, v, format, old(depth)))
      ensures ok ==> old(offset) <= offset <= old(offset) + |Print(codec, v, format, old(depth))|
      ensures old(Roomy(Print(codec, v, format, depth))) ==> ok
      decreases v, 0
    {
      hide PrintItems, PrintMembers, Literal, CString;
      match v
      case Null => ok := Emit(NULL_TEXT, 5);
      case False => ok := Emit(FALSE_TEXT, 6);
      case True => ok := Emit(TRUE_TEXT, 5);
      case Number(n) =>
        NumberNoNul(codec, n);
        var text := codec.render(n);
        ok := Emit(text, |text| + 1);
        if ok { offset := offset + |text|; }
      case Str(s) =>
        var text := PrintStringPtr(s);
        ok := Emit(text, |text| + 1);
      case Arr(items) => ok := PrintArrayHere(items);
      case Obj(members) => ok := PrintObjectHere(members);
    }

    /** Bytes stored at the offset, which moves behind them. */
    method Append(t: seq<byte>, needed: nat, ghost pre: seq<byte>, ghost done: seq<byte>) returns (ok: bool)
      requires Valid() && |t| <= needed && Upto(pre, done)
      modifies this`buffer, this`offset
      ensures Valid()
      ensures ok ==> Upto(pre, done + t)
      ensures !noalloc && old(offset) + needed + 1 <= INT_MAX / 2 ==> ok
    {
      ok := Ensure(needed);
      if !ok { return; }
      ghost var before := buffer;
      Store(offset, t);
      offset := offset + |t|;
      Appended(before, pre, done, t, buffer);
    }

    lemma Appended(before: seq<byte>, pre: seq<byte>, done: seq<byte>, t: seq<byte>, after: seq<byte>)
      requires |pre| + |done| + |t| <= |before| && before[..|pre| + |done|] == pre + done
      requires after == before[..|pre| + |done|] + t + before[|pre| + |done| + |t|..]
      ensures after[..|pre| + |done| + |t|] == pre + (done + t)
    {}

    /** print_value and update_offset together. */
    method AppendValue(v: Json<N>, ghost pre: seq<byte>, ghost done: seq<byte>) returns (ok: bool)
      requires Valid() && Printable(codec, v) && Upto(pre, done)
      modifies this
      ensures Valid() && (ok ==> depth == old(depth))
      ensures ok ==> Upto(pre, done + Print(codec, v, format, old(depth)))
      ensures old(Roomy(Print(codec, v, format, depth))) ==> ok
      decreases v, 1
    {
      hide Print;
      ghost var start := offset;
      ghost var t := Print(codec, v, format, depth);
      PrintNoNul(codec, v, format, depth);
      ok := PrintValueHere(v);
      if !ok { return; }
      UpdateOffset(t, start);
      assert buffer[..offset] == buffer[..start] + buffer[start..offset];
      assert buffer[..offset] == pre + (done + t);
    }

    /** print_string_ptr and update_offset, for a key. */
    method AppendKey(key: seq<byte>, ghost pre: seq<byte>, ghost done: seq<byte>) returns (ok: bool)
      requires Valid() && Upto(pre, done)
      modifies this
      ensures Valid() && (ok ==> depth == old(depth))
      ensures ok ==> Upto(pre, done + Literal(CString(key)))
      ensures old(Roomy(Literal(CString(key)))) ==> ok
    {
      hide Literal, CString;
      ghost var start := offset;
      LiteralNoNul(key);
      var text := PrintStringPtr(key);
      ok := Emit(text, |text| + 1);
      if !ok { return; }
      UpdateOffset(text, start);
      assert buffer[..offset] == buffer[..start] + buffer[start..offset];
      assert buffer[..offset] == pre + (done + text);
    }

    /** print_array */
    method PrintArrayHere(items: seq<Json<N>>) returns (ok: bool)
      requires Valid() && forall i | 0 <= i < |items| :: Printable(codec, items[i])
      modifies this
      ensures Valid() && (ok ==> depth == old(depth))
      ensures ok ==> Stands(old(buffer)[..old(offset)], Print(codec, Arr(items), format, old(depth)))
      ensures ok ==> old(offset) <= offset <= old(offset) + |Print(codec, Arr(items), format, old(depth))|
      ensures old(Roomy(Print(codec, Arr(items), format, depth))) ==> ok
      decreases items, 1
    {
      hide Print, PrintItems;
      ghost var pre := buffer[..offset];
      ArrayParts(codec, items, format, depth);
      ok := Append([LBRACKET], 1, pre, []);
      if !ok { return; }
      depth := depth + 1;
      assert [] + [LBRACKET] == [LBRACKET];
      ok := ItemsHere(items, pre, [LBRACKET]);
      if !ok { return; }
      ghost var done := [LBRACKET] + PrintItems(codec, items, format, depth);
      ok := EmitAfter([RBRACKET], 2, pre, done);
      depth := depth - 1;
    }

    /** The loop of print_array. */
    method ItemsHere(items: seq<Json<N>>, ghost pre: seq<byte>, ghost open: seq<byte>) returns (ok: bool)
      requires Valid() && Upto(pre, open) && forall i | 0 <= i < |items| :: Printable(codec, items[i])
      modifies this
      ensures Valid() && (ok ==> depth == old(depth))
      ensures ok ==> Upto(pre, open + PrintItems(codec, items, format, old(depth)))
      ensures old(Roomy(PrintItems(codec, items, format, depth))) ==> ok
      decreases items, 0
    {
      hide Print, PrintItems, ItemText, Printable;
      ghost var all := PrintItems(codec, items, format, depth);
      ghost var done := open;
      var i := 0;
      ok := true;
      assert items[0..] == items;
      while i < |items|
        invariant 0 <= i <= |items| && Valid() && depth == old(depth) && Upto(pre, done) && ok
        invariant open + all == done + PrintItems(codec, items[i..], format, depth)
      {
        ItemsUnfold(codec, items, i, format, depth);
        ghost var text := ItemText(codec, items[i], i + 1 < |items|, format, depth);
        Shift(done, text, PrintItems(codec, items[i + 1..], format, depth));
        ok := PrintItemHere(items[i], i + 1 < |items|, pre, done);
        if !ok { return; }
        done := done + text;
        i := i + 1;
      }
      ItemsEnd(codec, items, format, depth);
      assert done == open + all;
    }

    /** The body of the loop in print_array. */
    method PrintItemHere(v: Json<N>, more: bool, ghost pre: seq<byte>, ghost done: seq<byte>) returns (ok: bool)
      requires Valid() && Printable(codec, v) && Upto(pre, done)
      modifies this
      ensures Valid() && (ok ==> depth == old(depth))
      ensures ok ==> Upto(pre, done + ItemText(codec, v, more, format, old(depth)))
      ensures old(Roomy(ItemText(codec, v, more, format, depth))) ==> ok
      decreases v, 2
    {
      hide Print;
      ghost var t := Print(codec, v, format, depth);
      ok := AppendValue(v, pre, done);
      if !ok { return; }
      if more {
        var sep := if format then [COMMA, SPACE] else [COMMA];
        ok := Append(sep, |sep| + 1, pre, done + t);
        assert (done + t) + sep == done + (t + sep);
      } else {
        assert t + [] == t;
      }
    }

    /** print_object */
    method PrintObjectHere(members: seq<Member<N>>) returns (ok: bool)
      requires Valid() && forall i | 0 <= i < |members| :: Printable(codec, members[i].value)
      modifies this
      ensures Valid() && (ok ==> depth == old(depth))
      ensures ok ==> Stands(old(buffer)[..old(offset)], Print(codec, Obj(members), format, old(depth)))
      ensures ok ==> old(offset) <= offset <= old(offset) + |Print(codec, Obj(members), format, old(depth))|
      ensures old(Roomy(Print(codec, Obj(members), format, depth))) ==> ok
      decreases members, 2
    {
      hide Print, PrintMembers;
      ghost var pre := buffer[..offset];
      var open := if format then [LBRACE, NEWLINE] else [LBRACE];
      ObjectParts(codec, members, format, depth);
      ok := Append(open, |open| + 1, pre, []);
      if !ok { return; }
      depth := depth + 1;
      assert [] + open == open;
      ok := MembersHere(members, pre, open);
      if !ok { return; }
      ghost var done := open + PrintMembers(codec, members, format, depth);
      var close := (if format then Repeat(TAB, depth - 1) else []) + [RBRACE];
      ok := EmitAfter(close, if format then depth + 1 else 2, pre, done);
      depth := depth - 1;
    }

    /** The loop of print_object. */
    method MembersHere(members: seq<Member<N>>, ghost pre: seq<byte>, ghost open: seq<byte>) returns (ok: bool)
      requires Valid() && Upto(pre, open)
      requires forall i | 0 <= i < |members| :: Printable(codec, members[i].value)
      modifies this
      ensures Valid() && (ok ==> depth == old(depth))
      ensures ok ==> Upto(pre, open + PrintMembers(codec, members, format, old(depth)))
      ensures old(Roomy(PrintMembers(codec, members, format, depth))) ==> ok
      decreases members, 1
    {
      hide Print, PrintMembers, MemberLine, Printable, NoNul;
      ghost var all := PrintMembers(codec, members, format, depth);
      ghost var done := open;
      var i := 0;
      ok := true;
      assert members[0..] == members;
      while i < |members|
        invariant 0 <= i <= |members| && Valid() && depth == old(depth) && Upto(pre, done) && ok
        invariant open + all == done + PrintMembers(codec, members[i..], format, depth)
      {
        MembersUnfold(codec, members, i, format, depth);
        ghost var text := MemberLine(codec, members[i], i + 1 < |members|, format, depth);
        Shift(done, text, PrintMembers(codec, members[i + 1..], format, depth));
        ok := PrintMemberHere(members[i], i + 1 < |members|, pre, done);
        if !ok { return; }
        done := done + text;
        i := i + 1;
      }
      MembersEnd(codec, members, format, depth);
      assert done == open + all;
    }

    /** The body of the loop in print_object: indentation, key, colon, value, comma, line end. */
    method PrintMemberHere(m: Member<N>, more: bool, ghost pre: seq<byte>, ghost done: seq<byte>) returns (ok: bool)
      requires Valid() && Printable(codec, m.value) && Upto(pre, done)
      modifies this
      ensures Valid() && (ok ==> depth == old(depth))
      ensures ok ==> Upto(pre, done + MemberLine(codec, m, more, format, old(depth)))
      ensures old(Roomy(MemberLine(codec, m, more, format, depth))) ==> ok
      decreases m.value, 2
    {
      hide Print, Literal, CString;
      ghost var o := offset;
      ghost var t0 := done;
      if format {
        ok := Append(Repeat(TAB, depth), depth, pre, t0);
        if !ok { return; }
        t0 := t0 + Repeat(TAB, depth);
      }
      ok := AppendKey(m.key, pre, t0);
      if !ok { return; }
      t0 := t0 + Literal(CString(m.key));
      var colon := if format then [COLON, TAB] else [COLON];
      ok := Append(colon, |colon|, pre, t0);
      if !ok { return; }
      t0 := t0 + colon;
      ok := AppendValue(m.value, pre, t0);
      if !ok { return; }
      t0 := t0 + Print(codec, m.value, format, depth);
      var end := (if more then [COMMA] else []) + (if format then [NEWLINE] else []);
      ok := Append(end, |end| + 1, pre, t0);
      LineParts(codec, m, more, format, depth, done);
    }

    lemma StandsJoin(pre: seq<byte>, done: seq<byte>, t: seq<byte>)
      requires Stands(pre + done, t)
      ensures Stands(pre, done + t)
    {
      var s := |pre|;
      assert buffer[..s] == buffer[..s + |done|][..s];
      assert buffer[s..s + |done| + |t|] == buffer[..s + |done|][s..] + buffer[s + |done|..s + |done| + |t|];
    }
  }

  // ---------------------------------------------------------------- unfolding the specification

  lemma ItemsUnfold<N>(codec: Codec<N>, items: seq<Json<N>>, i: nat, fmt: bool, depth: nat)
    requires i < |items|
    ensures PrintItems(codec, items[i..], fmt, depth)
         == ItemText(codec, items[i], i + 1 < |items|, fmt, depth) + PrintItems(codec, items[i + 1..], fmt, depth)
  {
    hide Print;
    assert items[i..][1..] == items[i + 1..];
  }

  /** The text print_array writes for one element. */
  function ItemText<N>(codec: Codec<N>, v: Json<N>, more: bool, fmt: bool, depth: nat): seq<byte> {
    Print(codec, v, fmt, depth) + (if more then (if fmt then [COMMA, SPACE] else [COMMA]) else [])
  }

  lemma ArrayParts<N>(codec: Codec<N>, items: seq<Json<N>>, fmt: bool, depth: nat)
    ensures Print(codec, Arr(items), fmt, depth) == ([LBRACKET] + PrintItems(codec, items, fmt, depth + 1)) + [RBRACKET]
  {
    hide PrintItems;
  }

  lemma Shift(done: seq<byte>, text: seq<byte>, rest: seq<byte>)
    ensures done + (text + rest) == (done + text) + rest
  {}

  lemma ItemsEnd<N>(codec: Codec<N>, items: seq<Json<N>>, fmt: bool, depth: nat)
    ensures PrintItems(codec, items[|items|..], fmt, depth) == []
  {}

  /** The text print_object writes for one member. */
  function MemberLine<N>(codec: Codec<N>, m: Member<N>, more: bool, fmt: bool, depth: nat): seq<byte> {
    (if fmt then Repeat(TAB, depth) else []) + Literal(CString(m.key)) + (if fmt then [COLON, TAB] else [COLON])
    + Print(codec, m.value, fmt, depth) + (if more then [COMMA] else []) + (if fmt then [NEWLINE] else [])
  }

  lemma MembersUnfold<N>(codec: Codec<N>, members: seq<Member<N>>, i: nat, fmt: bool, depth: nat)
    requires i < |members|
    ensures PrintMembers(codec, members[i..], fmt, depth)
         == MemberLine(codec, members[i], i + 1 < |members|, fmt, depth)
           + PrintMembers(codec, members[i + 1..], fmt, depth)
  {
    hide Print, Literal, CString;
    assert members[i..][1..] == members[i + 1..];
  }

  lemma MembersEnd<N>(codec: Codec<N>, members: seq<Member<N>>, fmt: bool, depth: nat)
    ensures PrintMembers(codec, members[|members|..], fmt, depth) == []
  {}

  lemma ObjectParts<N>(codec: Codec<N>, members: seq<Member<N>>, fmt: bool, depth: nat)
    ensures var open := if fmt then [LBRACE, NEWLINE] else [LBRACE];
            Print(codec, Obj(members), fmt, depth) ==
            (open + PrintMembers(codec, members, fmt, depth + 1))
              + ((if fmt then Repeat(TAB, depth) else []) + [RBRACE])
  {
    hide PrintMembers;
    assert [LBRACE] + [NEWLINE] == [LBRACE, NEWLINE] && [LBRACE] + [] == [LBRACE];
  }

  lemma LineParts<N>(codec: Codec<N>, m: Member<N>, more: bool, fmt: bool, depth: nat, done: seq<byte>)
    ensures var indented := if fmt then done + Repeat(TAB, depth) else done;
            indented + Literal(CString(m.key)) + (if fmt then [COLON, TAB] else [COLON])
              + Print(codec, m.value, fmt, depth)
            + ((if more then [COMMA] else []) + (if fmt then [NEWLINE] else [])) ==
            done + MemberLine(codec, m, more, fmt, depth)
  {
    hide Print, Literal, CString;
  }

  /** cJSON_Print and cJSON_PrintUnformatted: a buffer of 256 bytes to start with, and a text
      that is the printed form followed by its terminator. */
  method PrintText<N>(codec: Codec<N>, v: Json<N>, format: bool) returns (text: Option<seq<byte>>)
    requires Printable(codec, v)
    ensures text.Some? ==> text.value == Print(codec, v, format, 0) + [0]
    ensures |Print(codec, v, format, 0)| + 8 <= INT_MAX / 2 ==> text.Some?
  {
    hide Print;
    var start: seq<byte> :| |start| == 256 by { assert |seq(256, _ => 0 as byte)| == 256; }
    var p := new PrintBuffer(codec, start, format, false);
    var ok := p.PrintValueHere(v);
    if !ok { return None; }
    ghost var t := Print(codec, v, format, 0);
    PrintNoNul(codec, v, format, 0);
    assert start[..0] == [];
    p.UpdateOffset(t, 0);
    assert p.buffer[0..|t|] == p.buffer[..|t|];
    text := Some(p.buffer[..p.offset + 1]);
  }
}
