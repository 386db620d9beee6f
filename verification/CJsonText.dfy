/** The parser and the printer of cJSON as functions on byte strings, and their round trip. */
module CJsonText {
  import opened Bytes
  import opened Options
  import opened CJsonString

  // ---------------------------------------------------------------- values

  datatype Json<+N> =
    | Null
    | False
    | True
    | Number(n: N)
    | Str(s: seq<byte>)
    | Arr(items: seq<Json<N>>)
    | Obj(members: seq<Member<N>>)

  datatype Member<+N> = Member(key: seq<byte>, value: Json<N>)

  /** The two C library conversions. `render` is the text print_number emits, `strtod` the value
      read from the front of a run of number characters and how many of them it used. */
  datatype Codec<!N> = Codec(render: N -> seq<byte>, strtod: seq<byte> -> (N, nat))

  ghost predicate Sane<N>(codec: Codec<N>) {
    forall run :: codec.strtod(run).1 <= |run|
  }

  predicate NumberChar(b: byte) {
    0x30 <= b <= 0x39 || b == 0x2B || b == 0x2D || b == 0x65 || b == 0x45 || b == 0x2E
  }

  /** What print_number can emit: it fits number_buffer and starts like a number. */
  predicate NumberText(t: seq<byte>) {
    && 1 <= |t| <= 25
    && (t[0] == 0x2D || 0x30 <= t[0] <= 0x39)
    && forall i | 0 <= i < |t| :: NumberChar(t[i])
  }

  /** A number whose printed form is read back whole and unchanged. The source's own conversions
      do not do this for every double: 15 digits pass when they are close enough. */
  ghost predicate ReadsBack<N>(codec: Codec<N>, n: N) {
    NumberText(codec.render(n)) && codec.strtod(codec.render(n)) == (n, |codec.render(n)|)
  }

  /** Every number that occurs in v reads back. */
  ghost predicate NumbersReadBack<N>(codec: Codec<N>, v: Json<N>)
    decreases v
  {
    match v
    case Number(n) => ReadsBack(codec, n)
    case Arr(items) => forall i | 0 <= i < |items| :: NumbersReadBack(codec, items[i])
    case Obj(members) => forall i | 0 <= i < |members| :: NumbersReadBack(codec, members[i].value)
    case _ => true
  }

  /** The assumption about the C library, for the numbers of one value. */
  ghost predicate Faithful<N>(codec: Codec<N>, v: Json<N>) {
    Sane(codec) && NumbersReadBack(codec, v)
  }

  const NESTING_LIMIT := 1000

  /** The value opens at most `room` arrays and objects inside one another. */
  predicate Fits<N>(v: Json<N>, room: nat)
    decreases v
  {
    match v
    case Arr(items) => room >= 1 && forall i | 0 <= i < |items| :: Fits(items[i], room - 1)
    case Obj(members) => room >= 1 && forall i | 0 <= i < |members| :: Fits(members[i].value, room - 1)
    case _ => true
  }

  /** The value as C functions see it: strings and keys end in front of their first NUL. */
  function Cut<N>(v: Json<N>): Json<N>
    decreases v
  {
    match v
    case Str(s) => Str(CString(s))
    case Arr(items) => Arr(CutItems(items))
    case Obj(members) => Obj(CutMembers(members))
    case _ => v
  }

  function CutItems<N>(items: seq<Json<N>>): seq<Json<N>>
    decreases items
  {
    if items == [] then [] else [Cut(items[0])] + CutItems(items[1..])
  }

  function CutMembers<N>(members: seq<Member<N>>): seq<Member<N>>
    decreases members
  {
    if members == [] then []
    else [Member(CString(members[0].key), Cut(members[0].value))] + CutMembers(members[1..])
  }

  /** No string and no key holds a NUL. */
  predicate NulFree<N>(v: Json<N>)
    decreases v
  {
    match v
    case Str(s) => NoNul(s)
    case Arr(items) => forall i | 0 <= i < |items| :: NulFree(items[i])
    case Obj(members) => forall i | 0 <= i < |members| :: NoNul(members[i].key) && NulFree(members[i].value)
    case _ => true
  }

  // ---------------------------------------------------------------- parsing

  /** buffer_skip_whitespace: white space is every byte up to 32; a buffer that ends in it
      leaves the offset on its last byte. */
  function SkipWs(c: seq<byte>, off: nat): (r: nat)
    requires off <= |c|
    ensures off <= r <= |c| && (off < |c| ==> r < |c|)
    decreases |c| - off
  {
    if off == |c| then off
    else if c[off] > 32 then off
    else if off + 1 == |c| then off
    else SkipWs(c, off + 1)
  }

  predicate At(c: seq<byte>, off: nat, t: seq<byte>) {
    off + |t| <= |c| && c[off..off + |t|] == t
  }

  const NULL_TEXT: seq<byte> := [0x6E, 0x75, 0x6C, 0x6C]
  const FALSE_TEXT: seq<byte> := [0x66, 0x61, 0x6C, 0x73, 0x65]
  const TRUE_TEXT: seq<byte> := [0x74, 0x72, 0x75, 0x65]
  const LBRACKET: byte := 0x5B
  const RBRACKET: byte := 0x5D
  const LBRACE: byte := 0x7B
  const RBRACE: byte := 0x7D
  const COMMA: byte := 0x2C
  const COLON: byte := 0x3A
  const NEWLINE: byte := 0x0A
  const TAB: byte := 0x09
  const SPACE: byte := 0x20

  /** The number characters at `off`, at most `max` of them. */
  function Run(c: seq<byte>, off: nat, max: nat): (r: seq<byte>)
    requires off <= |c|
    ensures off + |r| <= |c|
    decreases max
  {
    if max == 0 || off == |c| || !NumberChar(c[off]) then [] else [c[off]] + Run(c, off + 1, max - 1)
  }

  type Parsed<N> = Option<(Json<N>, nat)>

  function ParseNumber<N>(codec: Codec<N>, c: seq<byte>, off: nat): (r: Parsed<N>)
    requires off <= |c| && Sane(codec)
    ensures r.Some? ==> off < r.value.1 <= |c|
  {
    var (n, used) := codec.strtod(Run(c, off, 63));
    if used == 0 then None else Some((Number(n), off + used))
  }

  /** parse_value: `depth` is how many arrays and objects are already open. */
  function ParseValue<N>(codec: Codec<N>, c: seq<byte>, off: nat, depth: nat): (r: Parsed<N>)
    requires off <= |c| && Sane(codec)
    ensures r.Some? ==> off < r.value.1 <= |c|
    decreases |c| - off, 0
  {
    if At(c, off, NULL_TEXT) then Some((Null, off + 4))
    else if At(c, off, FALSE_TEXT) then Some((False, off + 5))
    else if At(c, off, TRUE_TEXT) then Some((True, off + 4))
    else if off == |c| then None
    else if c[off] == QUOTE then
      var s := ParseString(c, off);
      if s.None? then None else Some((Str(s.value.0), s.value.1))
    else if c[off] == 0x2D || 0x30 <= c[off] <= 0x39 then ParseNumber(codec, c, off)
    else if c[off] == LBRACKET then
      if depth >= NESTING_LIMIT then None
      else
        var first := SkipWs(c, off + 1);
        if first == |c| then None
        else if c[first] == RBRACKET then Some((Arr([]), first + 1))
        else
          var items := ParseItems(codec, c, first, depth + 1);
          if items.None? then None else Some((Arr(items.value.0), items.value.1))
    else if c[off] == LBRACE then
      if depth >= NESTING_LIMIT then None
      else
        var first := SkipWs(c, off + 1);
        if first == |c| then None
        else if c[first] == RBRACE then Some((Obj([]), first + 1))
        else
          var members := ParseMembers(codec, c, first, depth + 1);
          if members.None? then None else Some((Obj(members.value.0), members.value.1))
    else None
  }

  /** The loop of parse_array from the start of an element to behind the closing bracket. */
  function ParseItems<N>(codec: Codec<N>, c: seq<byte>, off: nat, depth: nat): (r: Option<(seq<Json<N>>, nat)>)
    requires off <= |c| && Sane(codec)
    ensures r.Some? ==> off < r.value.1 <= |c|
    decreases |c| - off, 1
  {
    var v := ParseValue(codec, c, SkipWs(c, off), depth);
    if v.None? then None
    else
      var next := SkipWs(c, v.value.1);
      if next == |c| then None
      else if c[next] == COMMA then
        var rest := ParseItems(codec, c, next + 1, depth);
        if rest.None? then None else Some(([v.value.0] + rest.value.0, rest.value.1))
      else if c[next] == RBRACKET then Some(([v.value.0], next + 1))
      else None
  }

  /** One key, colon and value, with the white space around them. */
  function ParseMember<N>(codec: Codec<N>, c: seq<byte>, off: nat, depth: nat): (r: Option<(Member<N>, nat)>)
    requires off <= |c| && Sane(codec)
    ensures r.Some? ==> off < r.value.1 <= |c|
    decreases |c| - off, 1
  {
    var start := SkipWs(c, off);
    if start == |c| then None
    else
      var key := ParseString(c, start);
      if key.None? then None
      else
        var colon := SkipWs(c, key.value.1);
        if colon == |c| || c[colon] != COLON then None
        else
          var v := ParseValue(codec, c, SkipWs(c, colon + 1), depth);
          if v.None? then None else Some((Member(key.value.0, v.value.0), SkipWs(c, v.value.1)))
  }

  /** The loop of parse_object. */
  function ParseMembers<N>(codec: Codec<N>, c: seq<byte>, off: nat, depth: nat): (r: Option<(seq<Member<N>>, nat)>)
    requires off <= |c| && Sane(codec)
    ensures r.Some? ==> off < r.value.1 <= |c|
    decreases |c| - off, 2
  {
    var m := ParseMember(codec, c, off, depth);
    if m.None? then None
    else
      var next := m.value.1;
      if next == |c| then None
      else if c[next] == COMMA then
        var rest := ParseMembers(codec, c, next + 1, depth);
        if rest.None? then None else Some(([m.value.0] + rest.value.0, rest.value.1))
      else if c[next] == RBRACE then Some(([m.value.0], next + 1))
      else None
  }

  const BOM: seq<byte> := [0xEF, 0xBB, 0xBF]

  /** cJSON_ParseWithLengthOpts: byte order mark, value and, on request, nothing but white
      space and a NUL behind it. */
  function ParseText<N>(codec: Codec<N>, c: seq<byte>, requireNul: bool): Option<Json<N>>
    requires Sane(codec)
  {
    if c == [] then None
    else
      var start := if |c| > 4 && At(c, 0, BOM) then 3 else 0;
      var v := ParseValue(codec, c, SkipWs(c, start), 0);
      if v.None? then None
      else if requireNul && (var end := SkipWs(c, v.value.1); end == |c| || c[end] != 0) then None
      else Some(v.value.0)
  }

  // ---------------------------------------------------------------- printing

  function Repeat(b: byte, n: nat): (r: seq<byte>)
    ensures |r| == n && forall i | 0 <= i < n :: r[i] == b
  {
    seq(n, _ => b)
  }

  /** print_value: `depth` is the printer's own nesting depth, used for indentation. */
  function Print<N>(codec: Codec<N>, v: Json<N>, fmt: bool, depth: nat): seq<byte>
    decreases v, 0
  {
    match v
    case Null => NULL_TEXT
    case False => FALSE_TEXT
    case True => TRUE_TEXT
    case Number(n) => codec.render(n)
    case Str(s) => Literal(CString(s))
    case Arr(items) => [LBRACKET] + PrintItems(codec, items, fmt, depth + 1) + [RBRACKET]
    case Obj(members) =>
      [LBRACE] + (if fmt then [NEWLINE] else []) + PrintMembers(codec, members, fmt, depth + 1)
      + (if fmt then Repeat(TAB, depth) else []) + [RBRACE]
  }

  function PrintItems<N>(codec: Codec<N>, items: seq<Json<N>>, fmt: bool, depth: nat): seq<byte>
    decreases items, 1
  {
    if items == [] then []
    else if |items| == 1 then Print(codec, items[0], fmt, depth)
    else
      Print(codec, items[0], fmt, depth) + (if fmt then [COMMA, SPACE] else [COMMA])
      + PrintItems(codec, items[1..], fmt, depth)
  }

  function PrintMembers<N>(codec: Codec<N>, members: seq<Member<N>>, fmt: bool, depth: nat): seq<byte>
    decreases members, 1
  {
    if members == [] then []
    else
      (if fmt then Repeat(TAB, depth) else [])
      + Literal(CString(members[0].key)) + (if fmt then [COLON, TAB] else [COLON])
      + Print(codec, members[0].value, fmt, depth)
      + (if |members| > 1 then [COMMA] else []) + (if fmt then [NEWLINE] else [])
      + PrintMembers(codec, members[1..], fmt, depth)
  }
}
