/** String literals of cJSON: the two-pass decoder of parse_string with its UTF-16 escapes, and
    the encoder print_string_ptr. */
module CJsonString {
  import opened Bytes
  import opened Options

  const QUOTE: byte := 0x22
  const BACKSLASH: byte := 0x5C
  const LOWER_U: byte := 0x75

  // ---------------------------------------------------------------- UTF-8, by the book

  /** Section 3 of RFC 3629. */
  function Utf8(cp: int): (bytes: seq<byte>)
    requires 0 <= cp <= 0x10FFFF
    ensures 1 <= |bytes| <= 4
  {
    var (c1, c2, c3) := (cp / 0x40, cp / 0x40 / 0x40, cp / 0x40 / 0x40 / 0x40);
    if cp < 0x80 then [cp]
    else if cp < 0x800 then [0xC0 + c1, 0x80 + cp % 0x40]
    else if cp < 0x1_0000 then [0xE0 + c2, 0x80 + c1 % 0x40, 0x80 + cp % 0x40]
    else [0xF0 + c3, 0x80 + c2 % 0x40, 0x80 + c1 % 0x40, 0x80 + cp % 0x40]
  }

  /** Reading one encoded code point back: each byte adds six bits. */
  function Utf8Value(bytes: seq<byte>): int
    requires 1 <= |bytes| <= 4
  {
    var lead := if |bytes| == 1 then 0 else if |bytes| == 2 then 0xC0 else if |bytes| == 3 then 0xE0 else 0xF0;
    SixBits(bytes[0] as int - lead, bytes[1..])
  }

  function SixBits(high: int, bytes: seq<byte>): int
    decreases |bytes|
  {
    if bytes == [] then high else SixBits(high * 0x40 + (bytes[0] as int - 0x80), bytes[1..])
  }

  /** The encoding can be read back, and its lead byte tells its length. */
  lemma Utf8Inverse(cp: int)
    requires 0 <= cp <= 0x10FFFF
    ensures Utf8Value(Utf8(cp)) == cp
    ensures forall i | 1 <= i < |Utf8(cp)| :: 0x80 <= Utf8(cp)[i] < 0xC0
    ensures |Utf8(cp)| == var lead := Utf8(cp)[0];
                          if lead < 0x80 then 1 else if lead < 0xE0 then 2 else if lead < 0xF0 then 3 else 4
  {
    var u := Utf8(cp);
    var (c1, c2, c3) := (cp / 0x40, cp / 0x40 / 0x40, cp / 0x40 / 0x40 / 0x40);
    if |u| == 2 {
      SixBitsStep(c1, cp, u[1..]);
    } else if |u| == 3 {
      assert u[1..][1..] == u[2..];
      SixBitsStep(c2, c1, u[1..]);
      SixBitsStep(c1, cp, u[2..]);
    } else if |u| == 4 {
      assert u[1..][1..] == u[2..] && u[2..][1..] == u[3..];
      SixBitsStep(c3, c2, u[1..]);
      SixBitsStep(c2, c1, u[2..]);
      SixBitsStep(c1, cp, u[3..]);
    }
  }

  lemma SixBitsStep(high: int, value: int, bytes: seq<byte>)
    requires value >= 0 && high == value / 0x40 && |bytes| >= 1 && bytes[0] == 0x80 + value % 0x40
    ensures SixBits(high, bytes) == SixBits(value, bytes[1..])
  {}

  /** A lead byte with its continuation bytes, however long the form. */
  predicate Utf8Form(bytes: seq<byte>) {
    && 1 <= |bytes| <= 4 && (forall i | 1 <= i < |bytes| :: 0x80 <= bytes[i] < 0xC0)
    && match |bytes|
       case 1 => bytes[0] < 0x80
       case 2 => 0xC0 <= bytes[0] < 0xE0
       case 3 => 0xE0 <= bytes[0] < 0xF0
       case _ => 0xF0 <= bytes[0] < 0xF8
  }

  /** Of the forms with one value the encoding is the shortest, and the only one of its length. */
  lemma Utf8Shortest(cp: int, bytes: seq<byte>)
    requires 0 <= cp <= 0x10FFFF && Utf8Form(bytes) && Utf8Value(bytes) == cp
    ensures Utf8Form(Utf8(cp)) && |Utf8(cp)| <= |bytes|
    ensures |bytes| == |Utf8(cp)| ==> bytes == Utf8(cp)
  {
    hide Utf8, SixBits;
    Utf8Inverse(cp);
    Utf8Range(cp);
    FormValue(bytes);
    FormValue(Utf8(cp));
  }

  lemma Utf8Range(cp: int)
    requires 0 <= cp <= 0x10FFFF
    ensures Utf8Form(Utf8(cp))
    ensures |Utf8(cp)| == if cp < 0x80 then 1 else if cp < 0x800 then 2 else if cp < 0x1_0000 then 3 else 4
  {}

  lemma FormValue(bytes: seq<byte>)
    requires Utf8Form(bytes)
    ensures var v := Utf8Value(bytes);
            match |bytes|
            case 1 => v == bytes[0] < 0x80
            case 2 => v == (bytes[0] as int - 0xC0) * 0x40 + (bytes[1] as int - 0x80) < 0x800
            case 3 => v == ((bytes[0] as int - 0xE0) * 0x40 + (bytes[1] as int - 0x80)) * 0x40
                           + (bytes[2] as int - 0x80) < 0x1_0000
            case _ => v == (((bytes[0] as int - 0xF0) * 0x40 + (bytes[1] as int - 0x80)) * 0x40
                            + (bytes[2] as int - 0x80)) * 0x40 + (bytes[3] as int - 0x80)
  {
    hide SixBits;
    var high := bytes[0] as int - Mark(|bytes|);
    SixBitsAt(high, bytes, 1);
    if |bytes| >= 2 {
      var second := high * 0x40 + (bytes[1] as int - 0x80);
      SixBitsAt(second, bytes, 2);
      if |bytes| >= 3 {
        var third := second * 0x40 + (bytes[2] as int - 0x80);
        SixBitsAt(third, bytes, 3);
        if |bytes| == 4 { SixBitsAt(third * 0x40 + (bytes[3] as int - 0x80), bytes, 4); }
      }
    }
  }

  lemma SixBitsAt(high: int, bytes: seq<byte>, i: nat)
    requires i <= |bytes|
    ensures SixBits(high, bytes[i..]) ==
            if i == |bytes| then high else SixBits(high * 0x40 + (bytes[i] as int - 0x80), bytes[i + 1..])
  {
    if i < |bytes| { assert bytes[i..][1..] == bytes[i + 1..]; }
  }

  // ---------------------------------------------------------------- \u escapes

  function HexDigit(c: byte): (d: Option<int>)
    ensures d.Some? ==> 0 <= d.value < 16
  {
    if 0x30 <= c <= 0x39 then Some(c as int - 0x30)
    else if 0x41 <= c <= 0x46 then Some(c as int - 0x41 + 10)
    else if 0x61 <= c <= 0x66 then Some(c as int - 0x61 + 10)
    else None
  }

  predicate IsHex4(c: seq<byte>, i: nat)
    requires i + 4 <= |c|
  {
    HexDigit(c[i]).Some? && HexDigit(c[i + 1]).Some? && HexDigit(c[i + 2]).Some? && HexDigit(c[i + 3]).Some?
  }

  /** parse_hex4: a malformed group of digits counts as zero. */
  function Hex4(c: seq<byte>, i: nat): (h: int)
    requires i + 4 <= |c|
    ensures 0 <= h <= 0xFFFF
  {
    if !IsHex4(c, i) then 0
    else
      hide HexDigit;
      HexDigit(c[i]).value * 0x1000 + HexDigit(c[i + 1]).value * 0x100 + HexDigit(c[i + 2]).value * 0x10
      + HexDigit(c[i + 3]).value
  }

  /** The code point of the escape at `i` and the number of input bytes it takes, when the
      input may be read up to `end`. */
  function CodePoint(c: seq<byte>, i: nat, end: nat): (r: Option<(int, nat)>)
    requires i < end <= |c|
    ensures r.Some? ==> 0 <= r.value.0 <= 0x10FFFF && i + r.value.1 <= end
    ensures r.Some? ==> r.value.1 == (if r.value.0 < 0x1_0000 then 6 else 12)
  {
    if end - i < 6 then None
    else
      var first := Hex4(c, i + 2);
      if 0xDC00 <= first <= 0xDFFF then None
      else if 0xD800 <= first <= 0xDBFF then
        if end - (i + 6) < 6 || c[i + 6] != BACKSLASH || c[i + 7] != LOWER_U then None
        else
          var second := Hex4(c, i + 8);
          if second < 0xDC00 || second > 0xDFFF then None
          else Some((0x1_0000 + first % 0x400 * 0x400 + second % 0x400, 12))
      else Some((first, 6))
  }

  function Shifted(cp: int, k: nat): (r: int)
    requires cp >= 0
    ensures r >= 0
  {
    if k == 0 then cp else Shifted(cp, k - 1) / 0x40
  }

  /** The low six bits with bit 7 set and bit 6 clear. */
  function Continuation(cp: int): byte { 0x80 + cp % 0x40 }

  function Utf8Len(cp: int): nat { if cp < 0x80 then 1 else if cp < 0x800 then 2 else if cp < 0x1_0000 then 3 else 4 }

  lemma Utf8LenOk(cp: int)
    requires 0 <= cp <= 0x10FFFF
    ensures |Utf8(cp)| == Utf8Len(cp)
  {}

  function Mark(length: nat): int {
    if length == 1 then 0 else if length == 2 then 0xC0 else if length == 3 then 0xE0 else 0xF0
  }

  lemma Utf8Digits(cp: int, k: nat)
    requires 0 <= cp <= 0x10FFFF && k < |Utf8(cp)|
    ensures Utf8(cp)[k] == if k == 0 then Mark(|Utf8(cp)|) + Shifted(cp, |Utf8(cp)| - 1)
                           else Continuation(Shifted(cp, |Utf8(cp)| - 1 - k))
  {
    assert Shifted(cp, 0) == cp && Shifted(cp, 1) == cp / 0x40 && Shifted(cp, 2) == Shifted(cp, 1) / 0x40
        && Shifted(cp, 3) == Shifted(cp, 2) / 0x40;
  }

  /** The buffer `was` once the bytes of `u` from position `p` on have been stored at `at`. */
  ghost function StoredFrom(was: seq<byte>, u: seq<byte>, at: nat, p: nat): seq<byte>
    requires p <= |u| && at + |u| <= |was|
  {
    was[..at + p] + u[p..] + was[at + |u|..]
  }

  lemma StoreOneMore(was: seq<byte>, u: seq<byte>, at: nat, p: nat)
    requires p < |u| && at + |u| <= |was|
    ensures StoredFrom(was, u, at, p + 1)[at + p := u[p]] == StoredFrom(was, u, at, p)
  {}

  /** The encoding loop of utf16_literal_to_utf8: continuation bytes from the last to the
      second, then the lead byte. */
  method EncodeUtf8(codepoint: int, out: array<byte>, at: nat) returns (length: nat)
    requires 0 <= codepoint <= 0x10FFFF && at + |Utf8(codepoint)| <= out.Length
    modifies out
    ensures length == |Utf8(codepoint)|
    ensures out[..] == old(out[..at]) + Utf8(codepoint) + old(out[at + length..])
  {
    hide Utf8, Shifted, Mark, Continuation, StoredFrom;
    if codepoint < 0x80 { length := 1; }
    else if codepoint < 0x800 { length := 2; }
    else if codepoint < 0x1_0000 { length := 3; }
    else { length := 4; }
    Utf8LenOk(codepoint);
    ghost var was, u := out[..], Utf8(codepoint);
    var cp := codepoint;
    var position := length - 1;
    ShiftedStep(codepoint, 0);
    StoredEnds(was, u, at);
    while position > 0
      invariant 0 <= position < length
      invariant cp == Shifted(codepoint, length - 1 - position)
      invariant out[..] == StoredFrom(was, u, at, position + 1)
    {
      Utf8Digits(codepoint, position);
      ShiftedStep(codepoint, length - 1 - position);
      StoreOneMore(was, u, at, position);
      out[at + position] := Continuation(cp);
      cp := cp / 0x40;
      position := position - 1;
    }
    Utf8Digits(codepoint, 0);
    StoreOneMore(was, u, at, 0);
    out[at] := Mark(length) + cp;
  }

  lemma StoredEnds(was: seq<byte>, u: seq<byte>, at: nat)
    requires at + |u| <= |was|
    ensures StoredFrom(was, u, at, |u|) == was
    ensures StoredFrom(was, u, at, 0) == was[..at] + u + was[at + |u|..]
  {}

  lemma ShiftedStep(cp: int, k: nat)
    requires cp >= 0
    ensures Shifted(cp, 0) == cp
    ensures Shifted(cp, k + 1) == Shifted(cp, k) / 0x40
  {}

  // ---------------------------------------------------------------- parse_string, as a function

  /** The closing quote, as the sizing pass finds it: a backslash always takes the next byte
      with it. */
  function ClosingQuote(c: seq<byte>, i: nat): (r: Option<nat>)
    requires i <= |c|
    ensures r.Some? ==> i <= r.value < |c| && c[r.value] == QUOTE
    decreases |c| - i
  {
    if i == |c| then None
    else if c[i] == QUOTE then Some(i)
    else if c[i] == BACKSLASH then if i + 1 >= |c| then None else ClosingQuote(c, i + 2)
    else ClosingQuote(c, i + 1)
  }

  /** The single-character escapes. */
  function Simple(e: byte): Option<byte> {
    if e == 0x62 then Some(0x08)
    else if e == 0x66 then Some(0x0C)
    else if e == 0x6E then Some(0x0A)
    else if e == 0x72 then Some(0x0D)
    else if e == 0x74 then Some(0x09)
    else if e == QUOTE || e == BACKSLASH || e == 0x2F then Some(e)
    else None
  }

  /** The decoding pass over [i, end). */
  function Decoded(c: seq<byte>, i: nat, end: nat): Option<seq<byte>>
    requires end < |c|
    decreases end - i
  {
    if i >= end then Some([])
    else if c[i] != BACKSLASH then
      var rest := Decoded(c, i + 1, end);
      if rest.None? then None else Some([c[i]] + rest.value)
    else if c[i + 1] == LOWER_U then
      var cp := CodePoint(c, i, end);
      if cp.None? then None
      else
        var rest := Decoded(c, i + cp.value.1, end);
        if rest.None? then None else Some(Utf8(cp.value.0) + rest.value)
    else
      var one := Simple(c[i + 1]);
      if one.None? then None
      else
        var rest := Decoded(c, i + 2, end);
        if rest.None? then None else Some([one.value] + rest.value)
  }

  /** parse_string at `offset`: the decoded bytes and the offset behind the literal. */
  function ParseString(c: seq<byte>, offset: nat): (r: Option<(seq<byte>, nat)>)
    requires offset < |c|
    ensures r.Some? ==> offset + 1 < r.value.1 <= |c|
  {
    if c[offset] != QUOTE then None
    else
      var end := ClosingQuote(c, offset + 1);
      if end.None? then None
      else
        var text := Decoded(c, offset + 1, end.value);
        if text.None? then None else Some((text.value, end.value + 1))
  }

  // ---------------------------------------------------------------- the passes out of step

  /** How many escapes the sizing pass, standing at `j`, begins before `i`. */
  function Escapes(c: seq<byte>, j: nat, i: nat): nat
    requires i <= |c|
    decreases |c| - j
  {
    if j >= i then 0
    else if c[j] == BACKSLASH then 1 + Escapes(c, j + 2, i)
    else Escapes(c, j + 1, i)
  }

  lemma {:induction false} EscapesMax(c: seq<byte>, j: nat, k: nat)
    requires j <= k <= |c|
    ensures 2 * Escapes(c, j, k) <= k - j + 1
    decreases k - j
  {
    if j < k {
      if c[j] == BACKSLASH { if j + 2 <= k { EscapesMax(c, j + 2, k); } } else { EscapesMax(c, j + 1, k); }
    }
  }

  /** However far out of step the decoder is, `n` bytes begin at most (n + 1) / 2 escapes. */
  lemma {:induction false} EscapesGap(c: seq<byte>, j: nat, i: nat, n: nat)
    requires i + n <= |c|
    ensures 2 * Escapes(c, j, i + n) <= 2 * Escapes(c, j, i) + n + 1
    decreases |c| - j
  {
    if j < i {
      if c[j] == BACKSLASH { EscapesGap(c, j + 2, i, n); } else { EscapesGap(c, j + 1, i, n); }
    } else if j <= i + n {
      EscapesMax(c, j, i + n);
    }
  }

  lemma {:induction false} EscapesOfPlain(c: seq<byte>, j: nat, i: nat)
    requires i < |c| && c[i] != BACKSLASH
    ensures Escapes(c, j, i + 1) == Escapes(c, j, i)
    decreases |c| - j
  {
    if j < i {
      if c[j] == BACKSLASH { EscapesOfPlain(c, j + 2, i); } else { EscapesOfPlain(c, j + 1, i); }
    }
  }

  /** The sizing pass: the closing quote and the number of escapes before it. */
  method SizingPass(c: seq<byte>, start: nat) returns (end: Option<nat>, skipped: nat)
    requires start <= |c|
    ensures end == ClosingQuote(c, start)
    ensures end.Some? ==> skipped == Escapes(c, start, end.value)
  {
    var i := start;
    skipped := 0;
    while i < |c| && c[i] != QUOTE
      invariant start <= i <= |c|
      invariant ClosingQuote(c, start) == ClosingQuote(c, i)
      invariant forall k | i <= k <= |c| :: Escapes(c, start, k) == skipped + Escapes(c, i, k)
      decreases |c| - i
    {
      ghost var from := i;
      if c[i] == BACKSLASH {
        if i + 1 >= |c| { return None, 0; }
        skipped := skipped + 1;
        i := i + 1;
      }
      i := i + 1;
      ghost var one := if c[from] == BACKSLASH then 1 else 0;
      assert forall k | i <= k <= |c| :: Escapes(c, from, k) == one + Escapes(c, i, k);
    }
    if i >= |c| { return None, 0; }
    assert Escapes(c, i, i) == 0;
    end := Some(i);
  }

  /** The decoding pass, into a buffer of the computed size. */
  method DecodingPass(c: seq<byte>, start: nat, end: nat, output: array<byte>) returns (outp: int)
    requires start <= end < |c|
    requires output.Length == end - start + 2 - Escapes(c, start, end)
    modifies output
    ensures Decoded(c, start, end).None? ==> outp == -1
    ensures Decoded(c, start, end).Some? ==> 0 <= outp < output.Length && output[..outp] == Decoded(c, start, end).value
  {
    hide Escapes, CodePoint, Utf8, Decoded, Tail, Simple;
    var inp := start;
    outp := 0;
    EscapesNone(c, start);
    EscapesMax(c, start, end);
    TailStart(c, start, end);
    assert output[..0] == [];
    while inp < end
      invariant start <= inp <= end + 1
      invariant 0 <= outp < output.Length
      invariant inp <= end ==> outp + Escapes(c, start, inp) <= inp - start
      invariant Tail(c, start, inp, end, output[..outp])
      decreases end - inp
    {
      Slack(c, start, inp, end, outp);
      ghost var before := output[..outp];
      if c[inp] != BACKSLASH {
        EscapesOfPlain(c, start, inp);
        output[outp] := c[inp];
        assert output[..outp + 1] == before + [c[inp]];
        PlainTail(c, start, inp, end, before);
        outp, inp := outp + 1, inp + 1;
      } else if c[inp + 1] == LOWER_U {
        UnicodeTail(c, start, inp, end, before);
        var cp := CodePoint(c, inp, end);
        if cp.None? { return -1; }
        EscapesGap(c, start, inp, cp.value.1);
        Utf8Length(cp.value.0);
        Slack(c, start, inp + cp.value.1, end, outp + |Utf8(cp.value.0)|);
        var n := EncodeUtf8(cp.value.0, output, outp);
        assert output[..outp + n] == before + Utf8(cp.value.0);
        outp, inp := outp + n, inp + cp.value.1;
      } else {
        SimpleTail(c, start, inp, end, before);
        var one := Simple(c[inp + 1]);
        if one.None? { return -1; }
        EscapesGap(c, start, inp, if inp + 2 <= end then 2 else 1);
        output[outp] := one.value;
        assert output[..outp + 1] == before + [one.value];
        outp, inp := outp + 1, inp + 2;
      }
    }
    TailEnd(c, start, inp, end, output[..outp]);
    ghost var done := output[..outp];
    output[outp] := 0;
    assert output[..outp] == done;
  }

  /** Decoding from `start` is what was written so far followed by decoding from `inp`. */
  ghost predicate Tail(c: seq<byte>, start: nat, inp: nat, end: nat, written: seq<byte>)
    requires end < |c|
  {
    var rest := Decoded(c, inp, end);
    Decoded(c, start, end) == if rest.None? then None else Some(written + rest.value)
  }

  lemma TailStart(c: seq<byte>, start: nat, end: nat)
    requires end < |c|
    ensures Tail(c, start, start, end, [])
  {
    var rest := Decoded(c, start, end);
    if rest.Some? { assert [] + rest.value == rest.value; }
  }

  lemma TailStep(c: seq<byte>, start: nat, inp: nat, end: nat, written: seq<byte>, more: seq<byte>, n: nat)
    requires inp < end < |c| && Tail(c, start, inp, end, written)
    requires var rest := Decoded(c, inp + n, end);
             Decoded(c, inp, end) == if rest.None? then None else Some(more + rest.value)
    ensures Tail(c, start, inp + n, end, written + more)
  {
    hide Decoded;
    var rest := Decoded(c, inp + n, end);
    if rest.Some? { assert written + (more + rest.value) == (written + more) + rest.value; }
  }

  lemma PlainTail(c: seq<byte>, start: nat, inp: nat, end: nat, written: seq<byte>)
    requires inp < end < |c| && Tail(c, start, inp, end, written) && c[inp] != BACKSLASH
    ensures Tail(c, start, inp + 1, end, written + [c[inp]])
  {
    TailStep(c, start, inp, end, written, [c[inp]], 1);
  }

  lemma UnicodeTail(c: seq<byte>, start: nat, inp: nat, end: nat, written: seq<byte>)
    requires inp < end < |c| && Tail(c, start, inp, end, written) && c[inp] == BACKSLASH && c[inp + 1] == LOWER_U
    ensures match CodePoint(c, inp, end)
            case None => Decoded(c, start, end).None?
            case Some((cp, n)) => Tail(c, start, inp + n, end, written + Utf8(cp))
  {
    hide Utf8;
    var cp := CodePoint(c, inp, end);
    if cp.Some? { TailStep(c, start, inp, end, written, Utf8(cp.value.0), cp.value.1); }
  }

  lemma SimpleTail(c: seq<byte>, start: nat, inp: nat, end: nat, written: seq<byte>)
    requires inp < end < |c| && Tail(c, start, inp, end, written) && c[inp] == BACKSLASH && c[inp + 1] != LOWER_U
    ensures match Simple(c[inp + 1])
            case None => Decoded(c, start, end).None?
            case Some(one) => Tail(c, start, inp + 2, end, written + [one])
  {
    var one := Simple(c[inp + 1]);
    if one.Some? { TailStep(c, start, inp, end, written, [one.value], 2); }
  }

  lemma TailEnd(c: seq<byte>, start: nat, inp: nat, end: nat, written: seq<byte>)
    requires end < |c| && end <= inp && Tail(c, start, inp, end, written)
    ensures Decoded(c, start, end) == Some(written)
  {
    assert written + [] == written;
  }

  lemma EscapesNone(c: seq<byte>, i: nat)
    requires i <= |c|
    ensures Escapes(c, i, i) == 0
  {}

  lemma Utf8Length(cp: int)
    requires 0 <= cp <= 0x10FFFF
    ensures cp < 0x1_0000 ==> |Utf8(cp)| <= 3
  {}

  /** parse_string as written: a sizing pass, one allocation, a decoding pass into it. Every
      store is inside the allocation, for every input, also where the two passes disagree about
      what is an escape. */
  method ParseStringTwoPass(c: seq<byte>, offset: nat) returns (r: Option<(seq<byte>, nat)>)
    requires offset < |c|
    ensures r == ParseString(c, offset)
  {
    if c[offset] != QUOTE { return None; }
    var inputEnd, skipped := SizingPass(c, offset + 1);
    if inputEnd.None? { return None; }
    EscapesMax(c, offset + 1, inputEnd.value);
    var allocation := inputEnd.value - offset - skipped;
    var output := new byte[allocation + 1];
    var n := DecodingPass(c, offset + 1, inputEnd.value, output);
    if n == -1 { return None; }
    r := Some((output[..n], inputEnd.value + 1));
  }

  /** The room left after `inp`: the escapes still to come are at most half the bytes. */
  lemma Slack(c: seq<byte>, start: nat, inp: nat, end: nat, outp: nat)
    requires start <= inp <= end <= |c|
    requires outp + Escapes(c, start, inp) <= inp - start
    ensures outp + Escapes(c, start, end) <= end - start
  {
    EscapesGap(c, start, inp, end - inp);
  }

  // ---------------------------------------------------------------- print_string_ptr

  function LowerHex(d: int): byte
    requires 0 <= d < 16
  {
    if d < 10 then 0x30 + d else 0x61 + d - 10
  }

  /** The letter of a two-character escape, if the byte has one. */
  function EscapeLetter(b: byte): Option<byte> {
    if b == QUOTE || b == BACKSLASH then Some(b)
    else if b == 0x08 then Some(0x62)
    else if b == 0x0C then Some(0x66)
    else if b == 0x0A then Some(0x6E)
    else if b == 0x0D then Some(0x72)
    else if b == 0x09 then Some(0x74)
    else None
  }

  function Escape(b: byte): (e: seq<byte>)
    ensures 1 <= |e| <= 6
  {
    var letter := EscapeLetter(b);
    if letter.Some? then [BACKSLASH, letter.value]
    else if b < 32 then [BACKSLASH, LOWER_U, 0x30, 0x30, LowerHex(b / 16), LowerHex(b % 16)]
    else [b]
  }

  /** Which bytes are escaped, and how: the rest of RFC 8259's choice. What an escape stands for is
      `OneEscape`. */
  lemma EscapeForm(b: byte)
    ensures |Escape(b)| == if b in {0x08, 0x09, 0x0A, 0x0C, 0x0D, 0x22, 0x5C} then 2 else if b < 32 then 6 else 1
    ensures |Escape(b)| == 6 ==> forall i | 0 <= i < 6 :: !(0x41 <= Escape(b)[i] <= 0x46)
  {}

  function Escaped(s: seq<byte>): seq<byte> {
    if s == [] then [] else Escape(s[0]) + Escaped(s[1..])
  }

  /** The text of a string literal. */
  function Literal(s: seq<byte>): (text: seq<byte>)
    ensures |text| >= 2 && text[0] == QUOTE
  {
    [QUOTE] + Escaped(s) + [QUOTE]
  }

  lemma {:induction false} EscapedSnoc(s: seq<byte>, k: nat)
    requires k < |s|
    ensures Escaped(s[..k + 1]) == Escaped(s[..k]) + Escape(s[k])
  {
    hide Escape;
    if k == 0 {
      assert s[..1][1..] == [] && s[..0] == [];
      assert Escape(s[0]) + [] == Escape(s[0]) && [] + Escape(s[0]) == Escape(s[0]);
    } else {
      assert s[..k + 1][1..] == s[1..][..k] && s[..k][1..] == s[1..][..k - 1];
      EscapedSnoc(s[1..], k - 1);
      assert Escape(s[0]) + (Escaped(s[1..][..k - 1]) + Escape(s[k]))
          == (Escape(s[0]) + Escaped(s[1..][..k - 1])) + Escape(s[k]);
    }
  }

  /** The two bytes that stay the length of a byte's escape above one. */
  function Extra(b: byte): nat {
    if EscapeLetter(b).Some? then 1 else if b < 32 then 5 else 0
  }

  method StoreAll(output: array<byte>, at: nat, text: seq<byte>)
    requires at + |text| <= output.Length
    modifies output
    ensures output[..at + |text|] == old(output[..at]) + text
  {
    var i := 0;
    while i < |text|
      invariant 0 <= i <= |text|
      invariant output[..at + i] == old(output[..at]) + text[..i]
    {
      ghost var done := output[..at + i];
      output[at + i] := text[i];
      assert output[..at + i + 1] == done + [text[i]];
      assert text[..i + 1] == text[..i] + [text[i]];
      i := i + 1;
    }
    assert text[..i] == text;
  }

  // ---------------------------------------------------------------- C strings

  predicate NoNul(t: seq<byte>) {
    forall i | 0 <= i < |t| :: t[i] != 0
  }

  /** What a C function sees of a byte string: it ends in front of the first NUL. */
  function CString(s: seq<byte>): seq<byte> {
    if s == [] || s[0] == 0 then [] else [s[0]] + CString(s[1..])
  }

  lemma {:induction false} CStringIs(s: seq<byte>, n: nat)
    requires n <= |s| && NoNul(s[..n]) && (n < |s| ==> s[n] == 0)
    ensures CString(s) == s[..n]
  {
    if n > 0 {
      assert s[..n][0] != 0 && s[1..][..n - 1] == s[..n][1..];
      CStringIs(s[1..], n - 1);
    }
  }

  lemma {:induction false} CStringIsWhole(s: seq<byte>)
    ensures NoNul(CString(s)) && (CString(s) == s <==> NoNul(s))
  {
    if s != [] && s[0] != 0 {
      CStringIsWhole(s[1..]);
      assert s == [s[0]] + s[1..];
    }
  }

  /** print_string_ptr: count the extra characters up to the NUL, reserve, then copy or escape up to
      the NUL. The buffer has exactly the computed size. */
  method PrintStringPtr(input: seq<byte>) returns (text: seq<byte>)
    ensures text == Literal(CString(input))
  {
    hide Escape, Escaped, EscapeLetter, Extra, CString;
    var extra, i := 0, 0;
    EscapedNil();
    while i < |input| && input[i] != 0
      invariant 0 <= i <= |input| && NoNul(input[..i])
      invariant i + extra == |Escaped(input[..i])|
    {
      EscapedSnoc(input, i);
      ExtraLength(input[i]);
      extra := extra + Extra(input[i]);
      i := i + 1;
    }
    CStringIs(input, i);
    ghost var cut := input[..i];
    var outputLength := i + extra;
    var output := new byte[outputLength + 3];
    output[0] := QUOTE;
    var p := 1;
    i := 0;
    assert output[..1] == [QUOTE] + Escaped(cut[..0]) by { assert cut[..0] == []; }
    while i < |input| && input[i] != 0
      invariant 0 <= i <= |cut|
      invariant 1 <= p == 1 + |Escaped(cut[..i])| <= outputLength + 1
      invariant output[..p] == [QUOTE] + Escaped(cut[..i])
    {
      assert input[i] == cut[i];
      EscapedSnoc(cut, i);
      EscapedPrefix(cut, i + 1);
      StoreAll(output, p, Escape(input[i]));
      p := p + |Escape(input[i])|;
      i := i + 1;
    }
    assert i == |cut| && cut[..i] == cut;
    ghost var done := output[..p];
    output[outputLength + 1] := QUOTE;
    output[outputLength + 2] := 0;
    assert output[..outputLength + 2] == done + [QUOTE];
    text := output[..outputLength + 2];
  }

  lemma EscapedNil()
    ensures Escaped([]) == []
  {}

  lemma ExtraLength(b: byte)
    ensures |Escape(b)| == 1 + Extra(b)
  {}

  lemma {:induction false} EscapedPrefix(s: seq<byte>, k: nat)
    requires k <= |s|
    ensures |Escaped(s[..k])| <= |Escaped(s)|
    decreases |s| - k
  {
    hide Escape, Escaped;
    if k < |s| {
      EscapedSnoc(s, k);
      EscapedPrefix(s, k + 1);
    } else {
      assert s[..k] == s;
    }
  }

  lemma HexIsPlain(x: byte)
    ensures HexDigit(x).Some? ==> x != QUOTE && x != BACKSLASH
  {}

  lemma ClosingQuotePlain(c: seq<byte>, i: nat)
    requires i < |c| && c[i] != QUOTE && c[i] != BACKSLASH
    ensures ClosingQuote(c, i) == ClosingQuote(c, i + 1)
  {}

  // ---------------------------------------------------------------- escapes the parser accepts

  /** The bytes of a code point in front of what the decoder makes of the rest. */
  function Prepended(cp: int, rest: Option<seq<byte>>): Option<seq<byte>>
    requires 0 <= cp <= 0x10FFFF
  {
    if rest.None? then None else Some(Utf8(cp) + rest.value)
  }

  /** A well-formed \u escape outside the surrogate range is decoded to the UTF-8 form of its
      value, a well-formed surrogate pair to that of the code point it stands for, and half a pair
      is refused. */
  lemma UnicodeEscape(c: seq<byte>, i: nat, end: nat)
    requires i + 6 <= end < |c| && c[i] == BACKSLASH && c[i + 1] == LOWER_U && IsHex4(c, i + 2)
    ensures var u := Hex4(c, i + 2);
            !(0xD800 <= u <= 0xDFFF) ==> Decoded(c, i, end) == Prepended(u, Decoded(c, i + 6, end))
    ensures var u := Hex4(c, i + 2);
            0xDC00 <= u <= 0xDFFF ==> Decoded(c, i, end).None?
    ensures var u := Hex4(c, i + 2);
            0xD800 <= u <= 0xDBFF ==>
              if i + 12 <= end && c[i + 6] == BACKSLASH && c[i + 7] == LOWER_U && 0xDC00 <= Hex4(c, i + 8) <= 0xDFFF
              then Decoded(c, i, end)
                == Prepended(0x1_0000 + (u - 0xD800) * 0x400 + (Hex4(c, i + 8) - 0xDC00), Decoded(c, i + 12, end))
              else Decoded(c, i, end).None?
  {
    hide Hex4, Utf8;
    var u, v := Hex4(c, i + 2), if i + 12 <= end then Hex4(c, i + 8) else 0;
    assert 0xD800 <= u <= 0xDBFF ==> u % 0x400 == u - 0xD800;
    assert 0xDC00 <= v <= 0xDFFF ==> v % 0x400 == v - 0xDC00;
  }

  // ---------------------------------------------------------------- literals by the book

  // This reader shares no table and no constant with the parser.

  /** The eight escapes of one letter in section 7 of RFC 8259. */
  function EscapeValue(letter: char): Option<byte> {
    match letter
    case '"' => Some(0x22)
    case '\\' => Some(0x5C)
    case '/' => Some(0x2F)
    case 'b' => Some(0x08)
    case 'f' => Some(0x0C)
    case 'n' => Some(0x0A)
    case 'r' => Some(0x0D)
    case 't' => Some(0x09)
    case _ => None
  }

  function DigitValue(digit: char): (d: Option<int>)
    ensures d.Some? ==> 0 <= d.value < 16
  {
    if '0' <= digit <= '9' then Some(digit as int - '0' as int)
    else if 'A' <= digit <= 'F' then Some(10 + digit as int - 'A' as int)
    else if 'a' <= digit <= 'f' then Some(10 + digit as int - 'a' as int)
    else None
  }

  /** The number that four hexadecimal digits stand for. */
  function FourDigits(c: seq<byte>, i: nat): (u: Option<int>)
    requires i + 4 <= |c|
    ensures u.Some? ==> 0 <= u.value <= 0xFFFF
  {
    hide DigitValue;
    var d0, d1 := DigitValue(c[i] as char), DigitValue(c[i + 1] as char);
    var d2, d3 := DigitValue(c[i + 2] as char), DigitValue(c[i + 3] as char);
    if d0.None? || d1.None? || d2.None? || d3.None? then None
    else Some(((d0.value * 16 + d1.value) * 16 + d2.value) * 16 + d3.value)
  }

  predicate IsPair(u: int, v: int) {
    0xD800 <= u <= 0xDBFF && 0xDC00 <= v <= 0xDFFF
  }

  /** The parser's tables against those of the standard: each escape by its value, and no other. */
  lemma EscapesAreTheStandards(letter: byte)
    ensures Simple(letter) == EscapeValue(letter as char)
  {}

  /** The decoder at an escape of one letter, in front of anything: the byte the standard gives it,
      and a refusal for every other letter. */
  lemma LetterEscape(c: seq<byte>, i: nat, end: nat)
    requires i + 1 < end < |c| && c[i] as char == '\\' && c[i + 1] as char != 'u'
    ensures var value, rest := EscapeValue(c[i + 1] as char), Decoded(c, i + 2, end);
            Decoded(c, i, end) == if value.None? || rest.None? then None else Some([value.value] + rest.value)
  {
    hide Simple, EscapeValue;
    EscapesAreTheStandards(c[i + 1]);
  }

  lemma DigitsAreTheStandards(digit: byte)
    ensures HexDigit(digit) == DigitValue(digit as char)
  {}

  lemma Hex4IsFourDigits(c: seq<byte>, i: nat)
    requires i + 4 <= |c|
    ensures IsHex4(c, i) == FourDigits(c, i).Some?
    ensures Hex4(c, i) == if FourDigits(c, i).Some? then FourDigits(c, i).value else 0
  {
    hide HexDigit, DigitValue;
    DigitsAreTheStandards(c[i]);
    DigitsAreTheStandards(c[i + 1]);
    DigitsAreTheStandards(c[i + 2]);
    DigitsAreTheStandards(c[i + 3]);
  }

  /** The grammar of section 7 of RFC 8259, from `i`, behind the opening quote: no byte below 0x20,
      no escapes but its own, four hexadecimal digits after every \u. The offset behind the closing
      quote. */
  function Grammar(c: seq<byte>, i: nat): (end: Option<nat>)
    requires i <= |c|
    ensures end.Some? ==> i < end.value <= |c|
    decreases |c| - i
  {
    if i == |c| then None
    else if c[i] as char == '"' then Some(i + 1)
    else if c[i] < 0x20 then None
    else if c[i] as char != '\\' then Grammar(c, i + 1)
    else if i + 1 == |c| then None
    else if c[i + 1] as char != 'u' then (if EscapeValue(c[i + 1] as char).None? then None else Grammar(c, i + 2))
    else if i + 6 > |c| || FourDigits(c, i + 2).None? then None
    else Grammar(c, i + 6)
  }

  function GrammarString(c: seq<byte>, offset: nat): Option<nat>
    requires offset < |c|
  {
    if c[offset] as char != '"' then None else Grammar(c, offset + 1)
  }

  /** Every surrogate escape is one half of a pair. The grammar does not ask for it; section 8.2
      says that without it a literal stands for no text. */
  predicate Paired(c: seq<byte>, i: nat, end: nat)
    requires end < |c|
    decreases end - i
  {
    if i >= end then true
    else if c[i] as char != '\\' then Paired(c, i + 1, end)
    else if c[i + 1] as char != 'u' then Paired(c, i + 2, end)
    else if i + 6 > end || FourDigits(c, i + 2).None? then false
    else if !(0xD800 <= FourDigits(c, i + 2).value <= 0xDFFF) then Paired(c, i + 6, end)
    else
      && i + 12 <= end && c[i + 6] as char == '\\' && c[i + 7] as char == 'u' && FourDigits(c, i + 8).Some?
      && IsPair(FourDigits(c, i + 2).value, FourDigits(c, i + 8).value) && Paired(c, i + 12, end)
  }

  /** The value of a literal of that grammar whose surrogate escapes are paired, and the offset
      behind it. */
  function Strict(c: seq<byte>, i: nat): (r: Option<(seq<byte>, nat)>)
    requires i <= |c|
    ensures r.Some? ==> i < r.value.1 <= |c|
    decreases |c| - i
  {
    if i == |c| then None
    else if c[i] as char == '"' then Some(([], i + 1))
    else if c[i] < 0x20 then None
    else if c[i] as char != '\\' then Cons([c[i]], Strict(c, i + 1))
    else if i + 1 == |c| then None
    else if c[i + 1] as char != 'u' then
      var letter := EscapeValue(c[i + 1] as char);
      if letter.None? then None else Cons([letter.value], Strict(c, i + 2))
    else if i + 6 > |c| || FourDigits(c, i + 2).None? then None
    else
      var u := FourDigits(c, i + 2).value;
      if !(0xD800 <= u <= 0xDFFF) then Cons(Utf8(u), Strict(c, i + 6))
      else if i + 12 > |c| || c[i + 6] as char != '\\' || c[i + 7] as char != 'u' then None
      else if FourDigits(c, i + 8).None? then None
      else
        var v := FourDigits(c, i + 8).value;
        if !IsPair(u, v) then None
        else Cons(Utf8(0x1_0000 + (u - 0xD800) * 0x400 + (v - 0xDC00)), Strict(c, i + 12))
  }

  function Cons(bytes: seq<byte>, rest: Option<(seq<byte>, nat)>): (r: Option<(seq<byte>, nat)>)
    ensures r.Some? <==> rest.Some?
    ensures r.Some? ==> r.value == (bytes + rest.value.0, rest.value.1)
  {
    if rest.None? then None else Some((bytes + rest.value.0, rest.value.1))
  }

  function StrictString(c: seq<byte>, offset: nat): Option<(seq<byte>, nat)>
    requires offset < |c|
  {
    if c[offset] as char != '"' then None else Strict(c, offset + 1)
  }

  /** Along the way of the decoder no raw byte is below 0x20, and four hexadecimal digits follow
      every \u. */
  predicate Clean(c: seq<byte>, i: nat, end: nat)
    requires end < |c|
    decreases end - i
  {
    if i >= end then true
    else if c[i] as char != '\\' then c[i] >= 0x20 && Clean(c, i + 1, end)
    else if c[i + 1] as char != 'u' then Clean(c, i + 2, end)
    else i + 6 <= end && FourDigits(c, i + 2).Some? && Clean(c, i + 6, end)
  }

  /** Four hexadecimal digits keep the two passes in step. */
  lemma InStep(c: seq<byte>, i: nat)
    requires i + 6 <= |c| && c[i] == BACKSLASH && IsHex4(c, i + 2)
    ensures ClosingQuote(c, i) == ClosingQuote(c, i + 6)
  {
    hide HexDigit;
    HexIsPlain(c[i + 2]); HexIsPlain(c[i + 3]); HexIsPlain(c[i + 4]); HexIsPlain(c[i + 5]);
    ClosingQuotePlain(c, i + 2); ClosingQuotePlain(c, i + 3); ClosingQuotePlain(c, i + 4); ClosingQuotePlain(c, i + 5);
  }

  /** Where the decoder succeeds, in step with the sizing pass, it reads what the standard says
      if the rest is clean, and otherwise something the standard refuses. */
  lemma {:induction false} DecodedIsStrictIffClean(c: seq<byte>, i: nat, end: nat)
    requires i <= |c| && end < |c| && ClosingQuote(c, i) == Some(end) && Decoded(c, i, end).Some?
    ensures Strict(c, i) == if Clean(c, i, end) then Some((Decoded(c, i, end).value, end + 1)) else None
    decreases |c| - i
  {
    hide Simple, EscapeValue, FourDigits, Hex4, Utf8, IsHex4;
    if i < end {
      if c[i] != BACKSLASH {
        if c[i] >= 0x20 { DecodedIsStrictIffClean(c, i + 1, end); }
      } else if c[i + 1] != LOWER_U {
        EscapesAreTheStandards(c[i + 1]);
        DecodedIsStrictIffClean(c, i + 2, end);
      } else {
        Hex4IsFourDigits(c, i + 2);
        if IsHex4(c, i + 2) {
          UnicodeEscape(c, i, end);
          InStep(c, i);
          if !(0xD800 <= Hex4(c, i + 2) <= 0xDFFF) {
            DecodedIsStrictIffClean(c, i + 6, end);
          } else {
            Hex4IsFourDigits(c, i + 8);
            InStep(c, i + 6);
            DecodedIsStrictIffClean(c, i + 12, end);
          }
        }
      }
    }
  }

  /** What the standard reads the decoder reads, and to the same value. */
  lemma {:induction false} StrictIsDecoded(c: seq<byte>, i: nat)
    requires i <= |c| && Strict(c, i).Some?
    ensures var (text, next) := Strict(c, i).value;
            ClosingQuote(c, i) == Some(next - 1) && Decoded(c, i, next - 1) == Some(text)
    decreases |c| - i
  {
    hide Simple, EscapeValue, FourDigits, Hex4, Utf8, IsHex4;
    if c[i] == QUOTE {
    } else if c[i] != BACKSLASH {
      StrictIsDecoded(c, i + 1);
    } else if c[i + 1] != LOWER_U {
      EscapesAreTheStandards(c[i + 1]);
      StrictIsDecoded(c, i + 2);
    } else {
      var end := Strict(c, i).value.1 - 1;
      Hex4IsFourDigits(c, i + 2);
      InStep(c, i);
      if !(0xD800 <= Hex4(c, i + 2) <= 0xDFFF) {
        StrictIsDecoded(c, i + 6);
      } else {
        Hex4IsFourDigits(c, i + 8);
        InStep(c, i + 6);
        StrictIsDecoded(c, i + 12);
      }
      UnicodeEscape(c, i, end);
    }
  }

  /** A literal of the grammar keeps the passes in step, is clean, and has a value exactly when its
      surrogates are paired. */
  lemma {:induction false} GrammarParts(c: seq<byte>, i: nat)
    requires i <= |c| && Grammar(c, i).Some?
    ensures var end := Grammar(c, i).value - 1;
            && ClosingQuote(c, i) == Some(end) && Clean(c, i, end)
            && (Strict(c, i).Some? <==> Paired(c, i, end))
            && (Strict(c, i).Some? ==> Strict(c, i).value.1 == end + 1)
    decreases |c| - i
  {
    hide EscapeValue, FourDigits, Utf8, IsHex4;
    if c[i] == QUOTE {
    } else if c[i] != BACKSLASH {
      GrammarParts(c, i + 1);
    } else if c[i + 1] != LOWER_U {
      GrammarParts(c, i + 2);
    } else {
      Hex4IsFourDigits(c, i + 2);
      InStep(c, i);
      GrammarParts(c, i + 6);
      var high := 0xD800 <= FourDigits(c, i + 2).value < 0xDC00;
      if high && i + 12 <= |c| && c[i + 6] == BACKSLASH && c[i + 7] == LOWER_U {
        GrammarParts(c, i + 12);
      }
    }
  }

  lemma {:induction false} StrictIsGrammar(c: seq<byte>, i: nat)
    requires i <= |c| && Strict(c, i).Some?
    ensures Grammar(c, i) == Some(Strict(c, i).value.1)
    decreases |c| - i
  {
    hide EscapeValue, FourDigits, Utf8;
    if c[i] == QUOTE {
    } else if c[i] != BACKSLASH {
      StrictIsGrammar(c, i + 1);
    } else if c[i + 1] != LOWER_U {
      StrictIsGrammar(c, i + 2);
    } else if !(0xD800 <= FourDigits(c, i + 2).value <= 0xDFFF) {
      StrictIsGrammar(c, i + 6);
    } else {
      StrictIsGrammar(c, i + 12);
    }
  }

  /** A literal of section 7 of RFC 8259 is accepted exactly when its surrogate escapes are paired,
      and then with its value. */
  lemma GrammarIsAcceptedIffPaired(c: seq<byte>, offset: nat)
    requires offset < |c| && GrammarString(c, offset).Some?
    ensures var end := GrammarString(c, offset).value;
            if Paired(c, offset + 1, end - 1)
            then StrictString(c, offset).Some? && StrictString(c, offset).value.1 == end
                 && ParseString(c, offset) == StrictString(c, offset)
            else ParseString(c, offset) == None
  {
    GrammarParts(c, offset + 1);
    if Strict(c, offset + 1).Some? {
      StrictIsDecoded(c, offset + 1);
    } else if ParseString(c, offset).Some? {
      DecodedIsStrictIffClean(c, offset + 1, ClosingQuote(c, offset + 1).value);
    }
  }

  /** An accepted literal is one of section 7 of RFC 8259 exactly when the decoder meets no raw
      control character and no \u without its four digits, and then it is read to its value. */
  lemma AcceptedIsGrammarIffClean(c: seq<byte>, offset: nat)
    requires offset < |c| && ParseString(c, offset).Some?
    ensures var (text, end) := ParseString(c, offset).value;
            && (GrammarString(c, offset) == Some(end) <==> Clean(c, offset + 1, end - 1))
            && (Clean(c, offset + 1, end - 1) ==> StrictString(c, offset) == Some((text, end)))
  {
    var end := ParseString(c, offset).value.1;
    DecodedIsStrictIffClean(c, offset + 1, end - 1);
    if Clean(c, offset + 1, end - 1) { StrictIsGrammar(c, offset + 1); }
    if GrammarString(c, offset) == Some(end) { GrammarParts(c, offset + 1); }
  }

  /** A literal of the grammar that is refused: half a surrogate pair. */
  lemma LoneSurrogateRefused()
    ensures var c: seq<byte> := [QUOTE, BACKSLASH, LOWER_U, 0x44, 0x45, 0x41, 0x44, QUOTE];
            GrammarString(c, 0) == Some(8) && ParseString(c, 0) == None
  {
    var c: seq<byte> := [QUOTE, BACKSLASH, LOWER_U, 0x44, 0x45, 0x41, 0x44, QUOTE];
    assert Grammar(c, 7) == Some(8);
    assert Hex4(c, 3) == 0xDEAD;
    assert Grammar(c, 1) == Some(8);
    GrammarIsAcceptedIffPaired(c, 0);
  }

  /** Two literals that section 7 of RFC 8259 does not allow and the parser accepts: an escape
      without digits ... */
  lemma MalformedEscapeIsNul()
    ensures var c: seq<byte> := [QUOTE, BACKSLASH, LOWER_U, 0x7A, 0x7A, 0x7A, 0x7A, QUOTE];
            ParseString(c, 0) == Some(([0], 8)) && StrictString(c, 0) == None
  {
    var c: seq<byte> := [QUOTE, BACKSLASH, LOWER_U, 0x7A, 0x7A, 0x7A, 0x7A, QUOTE];
    assert ClosingQuote(c, 7) == Some(7);
    ClosingQuotePlain(c, 6); ClosingQuotePlain(c, 5); ClosingQuotePlain(c, 4); ClosingQuotePlain(c, 3);
    assert ClosingQuote(c, 1) == ClosingQuote(c, 3);
    assert Decoded(c, 7, 7) == Some([]);
    assert CodePoint(c, 1, 7) == Some((0, 6));
    assert Utf8(0) + [] == [0];
    assert Decoded(c, 1, 7) == Some([0]);
  }

  /** ... and a raw control character. */
  lemma ControlCharacterAccepted()
    ensures var c: seq<byte> := [QUOTE, 0x01, QUOTE];
            ParseString(c, 0) == Some(([0x01], 3)) && StrictString(c, 0) == None
  {
    var c: seq<byte> := [QUOTE, 0x01, QUOTE];
    assert ClosingQuote(c, 2) == Some(2);
    ClosingQuotePlain(c, 1);
    assert Decoded(c, 2, 2) == Some([]);
    assert [c[1]] + [] == [0x01];
    assert Decoded(c, 1, 2) == Some([0x01]);
  }

  // ---------------------------------------------------------------- reading a literal back

  lemma EscapeDigits(b: byte)
    requires b < 32
    ensures HexDigit(LowerHex(b / 16)) == Some(b / 16) && HexDigit(LowerHex(b % 16)) == Some(b % 16)
    ensures HexDigit(0x30) == Some(0)
  {}

  /** What a strict reader does at the escape of one byte. */
  lemma OneEscape(c: seq<byte>, i: nat, b: byte)
    requires i + |Escape(b)| <= |c| && c[i..i + |Escape(b)|] == Escape(b)
    ensures Strict(c, i) == Cons([b], Strict(c, i + |Escape(b)|))
  {
    var e := Escape(b);
    forall k | 0 <= k < |e| ensures c[i + k] == e[k] { assert c[i..i + |e|][k] == c[i + k]; }
    assert c[i] == e[0];
    if EscapeLetter(b).Some? {
      assert c[i + 1] == e[1];
    } else if b < 32 {
      hide LowerHex, HexDigit;
      EscapeDigits(b);
      assert c[i + 1] == e[1] && c[i + 2] == e[2] && c[i + 3] == e[3] && c[i + 4] == e[4] && c[i + 5] == e[5];
      assert Hex4(c, i + 2) == b;
      assert Utf8(b) == [b];
    }
  }

  lemma {:induction false} EscapedReadsBack(c: seq<byte>, i: nat, s: seq<byte>)
    requires i + |Escaped(s)| < |c|
    requires c[i..i + |Escaped(s)|] == Escaped(s) && c[i + |Escaped(s)|] == QUOTE
    ensures Strict(c, i) == Some((s, i + |Escaped(s)| + 1))
    decreases |s|
  {
    hide Escape, Escaped, Strict;
    var end := i + |Escaped(s)|;
    if s == [] {
      EscapedNil();
      NothingReadsBack(c, i);
    } else {
      var n := |Escape(s[0])|;
      EscapedCons(s);
      assert c[i..i + n] == c[i..end][..n];
      assert c[i + n..end] == c[i..end][n..];
      OneEscape(c, i, s[0]);
      EscapedReadsBack(c, i + n, s[1..]);
      assert [s[0]] + s[1..] == s;
    }
  }

  lemma NothingReadsBack(c: seq<byte>, i: nat)
    requires i < |c| && c[i] == QUOTE
    ensures Strict(c, i) == Some(([], i + 1))
  {}

  lemma EscapedCons(s: seq<byte>)
    requires s != []
    ensures Escaped(s) == Escape(s[0]) + Escaped(s[1..])
  {}

  /** The text of a literal, anywhere in a buffer, is a literal of section 7 of RFC 8259 for the
      string, and is parsed to it and consumed exactly. */
  lemma LiteralReadsBack(before: seq<byte>, s: seq<byte>, after: seq<byte>)
    ensures var c := before + Literal(s) + after;
            && StrictString(c, |before|) == Some((s, |before| + |Literal(s)|))
            && ParseString(c, |before|) == StrictString(c, |before|)
  {
    hide Escaped, Strict, ClosingQuote, Decoded;
    var c := before + Literal(s) + after;
    var i := |before| + 1;
    assert c[i..i + |Escaped(s)|] == Escaped(s);
    EscapedReadsBack(c, i, s);
    StrictIsDecoded(c, i);
  }

  /** What print_string_ptr prints is read back up to the first NUL: whole exactly when there is
      none. */
  lemma PrintedReadsBack(before: seq<byte>, s: seq<byte>, after: seq<byte>)
    ensures var text := Literal(CString(s));
            ParseString(before + text + after, |before|) == Some((CString(s), |before| + |text|))
    ensures CString(s) == s <==> NoNul(s)
  {
    hide Literal;
    LiteralReadsBack(before, CString(s), after);
    CStringIsWhole(s);
  }
}
