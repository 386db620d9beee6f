/** The parser as it runs: an offset and a depth counter moved through a buffer, and a tree of
    linked items filled in on the way. */
module CJsonParser {
  import opened Bytes
  import opened Options
  import opened CJsonString
  import opened CJsonText
  import opened CJsonList

  // ---------------------------------------------------------------- items

  /** The type of an item with its scalar value. */
  datatype Kind<+N> = Invalid | KNull | KFalse | KTrue | KNumber(n: N) | KString(s: seq<byte>) | KArray | KObject

  /** The fields of an item that are not links; `name` is its key in an object. */
  datatype Content<+N> = Content(name: Option<seq<byte>>, kind: Kind<N>)

  type Node<N> = Item<Content<N>>

  type Grown<N> = Shape<Content<N>>

  /** The value a tree of items stands for. */
  ghost function ValueOf<N>(sh: Grown<N>): Json<N>
    decreases sh
  {
    match sh.value.kind
    case Invalid => Null
    case KNull => Null
    case KFalse => False
    case KTrue => True
    case KNumber(n) => Number(n)
    case KString(s) => Str(s)
    case KArray => Arr(seq(|sh.kids|, i requires 0 <= i < |sh.kids| => ValueOf(sh.kids[i])))
    case KObject => Obj(seq(|sh.kids|, i requires 0 <= i < |sh.kids| =>
                          Member(NameOf(sh.kids[i]), ValueOf(sh.kids[i]))))
  }

  ghost function NameOf<N>(sh: Grown<N>): seq<byte> {
    if sh.value.name.Some? then sh.value.name.value else []
  }

  ghost function ValuesOf<N>(done: seq<Grown<N>>): (values: seq<Json<N>>)
    ensures |values| == |done|
  {
    seq(|done|, i requires 0 <= i < |done| => ValueOf(done[i]))
  }

  ghost function MembersOf<N>(done: seq<Grown<N>>): (members: seq<Member<N>>)
    ensures |members| == |done|
  {
    seq(|done|, i requires 0 <= i < |done| => Member(NameOf(done[i]), ValueOf(done[i])))
  }

  lemma OneMoreValue<N>(done: seq<Grown<N>>, sh: Grown<N>)
    ensures ValuesOf(done + [sh]) == ValuesOf(done) + [ValueOf(sh)]
    ensures MembersOf(done + [sh]) == MembersOf(done) + [Member(NameOf(sh), ValueOf(sh))]
  {
    hide ValueOf, NameOf;
  }

  /** `item` is the root of a finished tree that stands for v: every list in it, at every depth,
      satisfies the invariant. */
  ghost predicate Stands<N>(item: Node<N>, sh: Grown<N>, v: Json<N>)
    reads All(sh)`child, All(sh)`value, sh.below`next, sh.below`prev
  {
    sh.node == item && Nested(sh) && Tree(sh) && ValueOf(sh) == v
  }

  /** The item attached last has been filled in. */
  lemma FilledValue<N>(done: seq<Grown<N>>, below: set<Node<N>>, head: Item?<Content<N>>, item: Node<N>, sh: Grown<N>,
                       v: Json<N>)
    requires RowAnd(done, below, head, item) && Stands(item, sh, v) && sh.below !! below
    ensures Row(done + [sh], below + All(sh), head, item)
    ensures ValuesOf(done + [sh]) == ValuesOf(done) + [v]
    ensures MembersOf(done + [sh]) == MembersOf(done) + [Member(NameOf(sh), v)]
  {
    hide Row, RowAnd, Nested, Tree, ValuesOf, MembersOf, ValueOf;
    Filled(done, below, head, sh);
    OneMoreValue(done, sh);
  }

  lemma RootOf<N>(item: Node<N>, sh: Grown<N>, v: Json<N>)
    requires Stands(item, sh, v)
    ensures sh.node == item && sh.value == item.value
  {
    hide Nested, ValueOf;
  }

  lemma ValueOfArray<N>(sh: Grown<N>)
    requires sh.value.kind == KArray
    ensures ValueOf(sh) == Arr(ValuesOf(sh.kids))
  {}

  lemma ValueOfObject<N>(sh: Grown<N>)
    requires sh.value.kind == KObject
    ensures ValueOf(sh) == Obj(MembersOf(sh.kids))
  {}

  /** A scalar item. */
  method Leaf<N>(item: Node<N>, kind: Kind<N>, ghost v: Json<N>) returns (ghost sh: Grown<N>)
    requires item.child == null && v == ValueOf(Shape(item, item.value.(kind := kind), {}, []))
    modifies item`value
    ensures item.value == old(item.value).(kind := kind) && sh.below == {} && Stands(item, sh, v)
  {
    hide ValueOf, Nested, Tree;
    item.value := item.value.(kind := kind);
    LoneTree(item);
    sh := Shape(item, item.value, {}, []);
  }

  /** An array or object over a row of finished items. */
  method Inner<N>(item: Node<N>, kind: Kind<N>, head: Item?<Content<N>>, current: Item?<Content<N>>,
                  ghost done: seq<Grown<N>>, ghost below: set<Node<N>>)
    returns (ghost sh: Grown<N>)
    requires Row(done, below, head, current) && item !in below && (kind == KArray || kind == KObject)
    modifies item`child, item`value, (if head == null then {} else {head})`prev
    ensures item.value == old(item.value).(kind := kind) && sh.below == below
    ensures Stands(item, sh, if kind == KArray then Arr(ValuesOf(done)) else Obj(MembersOf(done)))
  {
    hide Row, Nested, Tree, ValueOf, ValuesOf, MembersOf;
    sh := Adopt(item, item.value.(kind := kind), head, current, done, below);
    if kind == KArray { ValueOfArray(sh); } else { ValueOfObject(sh); }
  }

  // ---------------------------------------------------------------- the buffer

  class ParseBuffer<N> {
    const content: seq<byte>
    const codec: Codec<N>
    var offset: nat
    var depth: nat

    constructor (codec: Codec<N>, content: seq<byte>)
      ensures this.codec == codec && this.content == content && offset == 0 && depth == 0
    {
      this.codec, this.content, offset, depth := codec, content, 0, 0;
    }

    ghost predicate Valid()
      reads this
    {
      offset <= |content| && Sane(codec)
    }

    /** buffer_skip_whitespace */
    method SkipWhitespace()
      requires Valid()
      modifies this`offset
      ensures Valid() && offset == SkipWs(content, old(offset))
    {
      if offset == |content| { return; }
      var start := offset;
      while offset < |content| && content[offset] <= 32
        invariant start <= offset <= |content|
        invariant offset < |content| ==> SkipWs(content, start) == SkipWs(content, offset)
        invariant offset == |content| ==> SkipWs(content, start) == offset - 1
      {
        offset := offset + 1;
      }
      if offset == |content| { offset := offset - 1; }
    }

    /** A parsing method gives the value of its specification and leaves the buffer behind it. */
    ghost predicate Took<T>(r: Option<T>, spec: Option<(T, nat)>, depthBefore: nat)
      reads this
    {
      match spec
      case None => r.None?
      case Some((v, end)) => r == Some(v) && offset == end && depth == depthBefore
    }

    method ParseStringHere() returns (r: Option<seq<byte>>)
      requires Valid() && offset < |content|
      modifies this`offset
      ensures Valid() && Took(r, ParseString(content, old(offset)), old(depth))
    {
      var s := ParseStringTwoPass(content, offset);
      if s.None? { return None; }
      offset := s.value.1;
      r := Some(s.value.0);
    }

    /** parse_number: copy at most 63 number characters, convert, advance by what was used. */
    method ParseNumberHere() returns (r: Option<N>)
      requires Valid()
      modifies this`offset
      ensures Valid()
      ensures match ParseNumber(codec, content, old(offset))
              case None => r.None?
              case Some((v, end)) => r.Some? && v == Number(r.value) && offset == end && depth == old(depth)
    {
      hide Run;
      var text: seq<byte> := [];
      var i := 0;
      assert Run(content, offset, 63) == text + Run(content, offset, 63);
      while i < 63 && offset + i < |content| && NumberChar(content[offset + i])
        invariant offset == old(offset) && 0 <= i <= 63 && offset + i <= |content|
        invariant Run(content, offset, 63) == text + Run(content, offset + i, 63 - i)
      {
        RunStep(content, offset + i, 63 - i, text);
        text := text + [content[offset + i]];
        i := i + 1;
      }
      RunEnd(content, offset + i, 63 - i);
      assert text == Run(content, offset, 63);
      var read := codec.strtod(text);
      if read.1 == 0 { return None; }
      offset := offset + read.1;
      r := Some(read.0);
    }

    predicate Here(word: seq<byte>)
      reads this
    {
      At(content, offset, word)
    }

    /** parse_value: fills `item`, whose place in its own list does not change. */
    method ParseValueHere(item: Node<N>) returns (ok: bool, ghost sh: Grown<N>)
      requires Valid() && item.child == null
      modifies this, item`child, item`value
      ensures Valid()
      ensures match ParseValue(codec, content, old(offset), old(depth))
              case None => !ok
              case Some((v, end)) => ok && offset == end && depth == old(depth) && Stands(item, sh, v)
      ensures ok ==> fresh(sh.below) && item.value.name == old(item.value.name)
      decreases |content| - offset, 1
    {
      hide Stands, ParseString, ParseNumber, ParseItems, ParseMembers, SkipWs;
      ok, sh := true, Shape(item, item.value, {}, []);
      if Here(NULL_TEXT) { sh := Leaf(item, KNull, Null); offset := offset + 4; return; }
      if Here(FALSE_TEXT) { sh := Leaf(item, KFalse, False); offset := offset + 5; return; }
      if Here(TRUE_TEXT) { sh := Leaf(item, KTrue, True); offset := offset + 4; return; }
      if offset == |content| { return false, sh; }
      var b := content[offset];
      if b == QUOTE {
        var s := ParseStringHere();
        if s.None? { return false, sh; }
        sh := Leaf(item, KString(s.value), Str(s.value));
        return;
      }
      if b == 0x2D || 0x30 <= b <= 0x39 {
        var n := ParseNumberHere();
        if n.None? { return false, sh; }
        sh := Leaf(item, KNumber(n.value), Number(n.value));
        return;
      }
      if b == LBRACKET { ok, sh := ParseArrayHere(item); return; }
      if b == LBRACE { ok, sh := ParseObjectHere(item); return; }
      ok := false;
    }

    /** parse_array */
    method ParseArrayHere(item: Node<N>) returns (ok: bool, ghost sh: Grown<N>)
      requires Valid() && offset < |content| && content[offset] == LBRACKET && item.child == null
      modifies this, item`child, item`value
      ensures Valid()
      ensures match ParseValue(codec, content, old(offset), old(depth))
              case None => !ok
              case Some((v, end)) => ok && offset == end && depth == old(depth) && Stands(item, sh, v)
      ensures ok ==> fresh(sh.below) && item.value.name == old(item.value.name)
      decreases |content| - offset, 0
    {
      hide Stands, ParseValue, ParseItems, SkipWs, Row, ValuesOf, MembersOf;
      ArrayUnfold(codec, content, offset, depth);
      ok, sh := false, Shape(item, item.value, {}, []);
      if depth >= NESTING_LIMIT { return; }
      depth := depth + 1;
      offset := offset + 1;
      SkipWhitespace();
      if offset == |content| { return; }
      var more, head, current;
      ghost var done, below;
      if content[offset] == RBRACKET {
        EmptyRow<Content<N>>();
        NoValues<N>();
        head, current, done, below := null, null, [], {};
        offset := offset + 1;
      } else {
        more, head, current, done, below := ItemLoop();
        if !more { return; }
      }
      depth := depth - 1;
      RowEnds(done, below, head, current);
      sh := Inner(item, KArray, head, current, done, below);
      ok := true;
    }

    /** The do-while loop of parse_array, from the first element to behind the bracket. */
    method ItemLoop() returns (ok: bool, head: Item?<Content<N>>, current: Item?<Content<N>>,
                               ghost done: seq<Grown<N>>, ghost below: set<Node<N>>)
      requires Valid() && offset < |content|
      modifies this
      ensures Valid()
      ensures match ParseItems(codec, content, old(offset), old(depth))
              case None => !ok
              case Some((items, end)) => ok && offset == end && depth == old(depth) && ValuesOf(done) == items
      ensures ok ==> fresh(below) && Row(done, below, head, current)
      decreases |content| - offset, 3
    {
      hide ParseValue, SkipWs, ParseItems, Pending, AfterItem, Row, RowAnd, ValuesOf, MembersOf, Stands;
      ghost var start, d := offset, depth;
      ok, head, current, done, below := false, null, null, [], {};
      EmptyRow<Content<N>>();
      NoValues<N>();
      var more := true;
      PendingStart(start, d);
      while more
        invariant Valid() && depth == d && start <= offset
        invariant fresh(below) && Row(done, below, head, current)
        invariant more ==> Pending(start, d, ValuesOf(done), ParseItems(codec, content, offset, d))
        invariant !more ==> Pending(start, d, ValuesOf(done), Closing(content, offset, RBRACKET))
        decreases |content| - offset, more
      {
        ghost var at := offset;
        RowEnds(done, below, head, current);
        var filled;
        ghost var sh;
        filled, head, current, sh := ItemHere(head, current, done, below);
        if !filled {
          ItemsStop(codec, content, at, d);
          PendingNone(start, d, ValuesOf(done), at);
          return;
        }
        ghost var v := ParseValue(codec, content, SkipWs(content, at), d).value.0;
        ItemsStep(codec, content, at, d, v, offset);
        SkipWhitespace();
        ghost var next := offset;
        more := offset < |content| && content[offset] == COMMA;
        if more { offset := offset + 1; }
        AfterItemDef(codec, content, next, d);
        Extend(start, d, ValuesOf(done), v, ParseItems(codec, content, at, d), AfterItem(codec, content, next, d));
        done, below := done + [sh], below + All(sh);
      }
      PendingEnd(start, d, ValuesOf(done), offset);
      if offset == |content| || content[offset] != RBRACKET { return; }
      offset := offset + 1;
      ok := true;
    }

    /** The body of that loop: attach a new item, then fill it. */
    method ItemHere(head: Item?<Content<N>>, current: Item?<Content<N>>, ghost done: seq<Grown<N>>,
                    ghost below: set<Node<N>>)
      returns (ok: bool, first: Item?<Content<N>>, item: Item?<Content<N>>, ghost sh: Grown<N>)
      requires Valid() && Row(done, below, head, current)
      modifies this, (if current == null then {} else {current})`next
      ensures Valid()
      ensures match ParseValue(codec, content, SkipWs(content, old(offset)), old(depth))
              case None => !ok
              case Some((v, end)) =>
                && ok && offset == end && depth == old(depth) && fresh(All(sh))
                && Row(done + [sh], below + All(sh), first, item)
                && ValuesOf(done + [sh]) == ValuesOf(done) + [v]
      decreases |content| - offset, 2
    {
      hide ParseValue, SkipWs, Row, RowAnd, ValuesOf, MembersOf, Stands;
      var node;
      RowEnds(done, below, head, current);
      node, first := NewChild(Content(None, Invalid), head, current, done, below);
      item := node;
      SkipWhitespace();
      ok, sh := ParseValueHere(node);
      if ok {
        ghost var v := ParseValue(codec, content, SkipWs(content, old(offset)), old(depth)).value.0;
        RootOf(node, sh, v);
        FilledValue(done, below, first, node, sh, v);
      }
    }

    lemma PendingStart(start: nat, d: nat)
      requires start <= |content| && Sane(codec)
      ensures Pending(start, d, [], ParseItems(codec, content, start, d))
    {
      hide ParseItems;
      var rest := ParseItems(codec, content, start, d);
      if rest.Some? { assert [] + rest.value.0 == rest.value.0; }
    }

    lemma PendingNone(start: nat, d: nat, items: seq<Json<N>>, at: nat)
      requires start <= |content| && Sane(codec) && at <= |content|
      requires ParseItems(codec, content, at, d).None? && Pending(start, d, items, ParseItems(codec, content, at, d))
      ensures ParseItems(codec, content, start, d).None?
    {
      hide ParseItems;
    }

    lemma PendingEnd(start: nat, d: nat, items: seq<Json<N>>, at: nat)
      requires start <= |content| && Sane(codec) && at <= |content|
      requires Pending(start, d, items, Closing(content, at, RBRACKET))
      ensures ParseItems(codec, content, start, d)
           == if at < |content| && content[at] == RBRACKET then Some((items, at + 1)) else None
    {
      hide ParseItems;
      assert items + [] == items;
    }

    /** The whole loop's result is what was collected followed by what is still to come. */
    ghost predicate Pending(start: nat, d: nat, items: seq<Json<N>>, rest: Option<(seq<Json<N>>, nat)>)
      requires start <= |content| && Sane(codec)
    {
      ParseItems(codec, content, start, d) == if rest.None? then None else Some((items + rest.value.0, rest.value.1))
    }

    lemma Extend(start: nat, d: nat, items: seq<Json<N>>, v: Json<N>, rest: Option<(seq<Json<N>>, nat)>,
                 after: Option<(seq<Json<N>>, nat)>)
      requires start <= |content| && Sane(codec) && Pending(start, d, items, rest)
      requires rest == if after.None? then None else Some(([v] + after.value.0, after.value.1))
      ensures Pending(start, d, items + [v], after)
    {
      hide ParseItems;
      if after.Some? { assert items + ([v] + after.value.0) == (items + [v]) + after.value.0; }
    }

    /** parse_object */
    method ParseObjectHere(item: Node<N>) returns (ok: bool, ghost sh: Grown<N>)
      requires Valid() && offset < |content| && content[offset] == LBRACE && item.child == null
      modifies this, item`child, item`value
      ensures Valid()
      ensures match ParseValue(codec, content, old(offset), old(depth))
              case None => !ok
              case Some((v, end)) => ok && offset == end && depth == old(depth) && Stands(item, sh, v)
      ensures ok ==> fresh(sh.below) && item.value.name == old(item.value.name)
      decreases |content| - offset, 0
    {
      hide Stands, ParseValue, ParseMembers, SkipWs, Row, ValuesOf, MembersOf;
      ObjectUnfold(codec, content, offset, depth);
      ok, sh := false, Shape(item, item.value, {}, []);
      if depth >= NESTING_LIMIT { return; }
      depth := depth + 1;
      offset := offset + 1;
      SkipWhitespace();
      if offset == |content| { return; }
      var more, head, current;
      ghost var done, below;
      if content[offset] == RBRACE {
        EmptyRow<Content<N>>();
        NoValues<N>();
        head, current, done, below := null, null, [], {};
        offset := offset + 1;
      } else {
        more, head, current, done, below := MemberLoop();
        if !more { return; }
      }
      depth := depth - 1;
      RowEnds(done, below, head, current);
      sh := Inner(item, KObject, head, current, done, below);
      ok := true;
    }

    /** The body of the loop of parse_object: attach a new item, then its key, colon and value. */
    method MemberHere(head: Item?<Content<N>>, current: Item?<Content<N>>, ghost done: seq<Grown<N>>,
                      ghost below: set<Node<N>>)
      returns (ok: bool, first: Item?<Content<N>>, item: Item?<Content<N>>, ghost sh: Grown<N>)
      requires Valid() && Row(done, below, head, current)
      modifies this, (if current == null then {} else {current})`next
      ensures Valid()
      ensures match ParseMember(codec, content, old(offset), old(depth))
              case None => !ok
              case Some((m, end)) =>
                && ok && offset == end && depth == old(depth) && fresh(All(sh))
                && Row(done + [sh], below + All(sh), first, item)
                && MembersOf(done + [sh]) == MembersOf(done) + [m]
      decreases |content| - offset, 2
    {
      hide ParseValue, ParseMember, ParseString, SkipWs, Row, RowAnd, ValuesOf, MembersOf, Stands;
      MemberUnfold(codec, content, offset, depth);
      var node;
      RowEnds(done, below, head, current);
      node, first := NewChild(Content(None, Invalid), head, current, done, below);
      item := node;
      sh := Shape(node, node.value, {}, []);
      ok := KeyHere(node);
      if !ok { return; }
      ghost var from := offset;
      ok, sh := ParseValueHere(node);
      if !ok { return; }
      ghost var v := ParseValue(codec, content, from, old(depth)).value.0;
      RootOf(node, sh, v);
      FilledValue(done, below, first, node, sh, v);
      SkipWhitespace();
    }

    /** The key and the colon, up to the value. */
    method KeyHere(item: Node<N>) returns (ok: bool)
      requires Valid()
      modifies this`offset, item`value
      ensures Valid()
      ensures match KeyAt(content, old(offset))
              case None => !ok
              case Some((key, end)) => ok && offset == end && item.value == Content(Some(key), Invalid)
    {
      hide ParseString, SkipWs;
      ok := false;
      SkipWhitespace();
      if offset == |content| { return; }
      var key := ParseStringHere();
      if key.None? { return; }
      item.value := Content(key, Invalid);
      SkipWhitespace();
      if offset == |content| || content[offset] != COLON { return; }
      offset := offset + 1;
      SkipWhitespace();
      ok := true;
    }

    /** The do-while loop of parse_object. */
    method MemberLoop() returns (ok: bool, head: Item?<Content<N>>, current: Item?<Content<N>>,
                                 ghost done: seq<Grown<N>>, ghost below: set<Node<N>>)
      requires Valid() && offset < |content|
      modifies this
      ensures Valid()
      ensures match ParseMembers(codec, content, old(offset), old(depth))
              case None => !ok
              case Some((members, end)) => ok && offset == end && depth == old(depth) && MembersOf(done) == members
      ensures ok ==> fresh(below) && Row(done, below, head, current)
      decreases |content| - offset, 3
    {
      hide ParseMember, ParseMembers, PendingM, AfterMember, Row, RowAnd, ValuesOf, MembersOf, Stands;
      ghost var start, d := offset, depth;
      ok, head, current, done, below := false, null, null, [], {};
      EmptyRow<Content<N>>();
      NoValues<N>();
      var more := true;
      PendingMStart(start, d);
      while more
        invariant Valid() && depth == d && start <= offset
        invariant fresh(below) && Row(done, below, head, current)
        invariant more ==> PendingM(start, d, MembersOf(done), ParseMembers(codec, content, offset, d))
        invariant !more ==> PendingM(start, d, MembersOf(done), ClosingM(content, offset, RBRACE))
        decreases |content| - offset, more
      {
        ghost var at := offset;
        RowEnds(done, below, head, current);
        var filled;
        ghost var sh;
        filled, head, current, sh := MemberHere(head, current, done, below);
        if !filled {
          MembersStop(codec, content, at, d);
          PendingMNone(start, d, MembersOf(done), at);
          return;
        }
        ghost var m := ParseMember(codec, content, at, d).value.0;
        MembersStep(codec, content, at, d, m, offset);
        ghost var next := offset;
        more := offset < |content| && content[offset] == COMMA;
        if more { offset := offset + 1; }
        AfterMemberDef(codec, content, next, d);
        ExtendM(start, d, MembersOf(done), m, ParseMembers(codec, content, at, d),
                AfterMember(codec, content, next, d));
        done, below := done + [sh], below + All(sh);
      }
      PendingMEnd(start, d, MembersOf(done), offset);
      if offset == |content| || content[offset] != RBRACE { return; }
      offset := offset + 1;
      ok := true;
    }

    lemma PendingMStart(start: nat, d: nat)
      requires start <= |content| && Sane(codec)
      ensures PendingM(start, d, [], ParseMembers(codec, content, start, d))
    {
      hide ParseMembers;
      var rest := ParseMembers(codec, content, start, d);
      if rest.Some? { assert [] + rest.value.0 == rest.value.0; }
    }

    lemma PendingMNone(start: nat, d: nat, members: seq<Member<N>>, at: nat)
      requires start <= |content| && Sane(codec) && at <= |content|
      requires ParseMembers(codec, content, at, d).None?
               && PendingM(start, d, members, ParseMembers(codec, content, at, d))
      ensures ParseMembers(codec, content, start, d).None?
    {
      hide ParseMembers;
    }

    lemma PendingMEnd(start: nat, d: nat, members: seq<Member<N>>, at: nat)
      requires start <= |content| && Sane(codec) && at <= |content|
      requires PendingM(start, d, members, ClosingM(content, at, RBRACE))
      ensures ParseMembers(codec, content, start, d)
           == if at < |content| && content[at] == RBRACE then Some((members, at + 1)) else None
    {
      hide ParseMembers;
      assert members + [] == members;
    }

    ghost predicate PendingM(start: nat, d: nat, members: seq<Member<N>>, rest: Option<(seq<Member<N>>, nat)>)
      requires start <= |content| && Sane(codec)
    {
      ParseMembers(codec, content, start, d)
        == if rest.None? then None else Some((members + rest.value.0, rest.value.1))
    }

    lemma ExtendM(start: nat, d: nat, members: seq<Member<N>>, m: Member<N>, rest: Option<(seq<Member<N>>, nat)>,
                  after: Option<(seq<Member<N>>, nat)>)
      requires start <= |content| && Sane(codec) && PendingM(start, d, members, rest)
      requires rest == if after.None? then None else Some(([m] + after.value.0, after.value.1))
      ensures PendingM(start, d, members + [m], after)
    {
      hide ParseMembers;
      if after.Some? { assert members + ([m] + after.value.0) == (members + [m]) + after.value.0; }
    }
  }

  // ---------------------------------------------------------------- unfolding the specification

  lemma NoValues<N>()
    ensures ValuesOf<N>([]) == [] && MembersOf<N>([]) == []
  {}

  lemma ArrayUnfold<N>(codec: Codec<N>, c: seq<byte>, off: nat, depth: nat)
    requires off < |c| && c[off] == LBRACKET && Sane(codec)
    ensures ParseValue(codec, c, off, depth) ==
            if depth >= NESTING_LIMIT then None
            else
              var first := SkipWs(c, off + 1);
              if first == |c| then None
              else if c[first] == RBRACKET then Some((Arr([]), first + 1))
              else
                var items := ParseItems(codec, c, first, depth + 1);
                if items.None? then None else Some((Arr(items.value.0), items.value.1))
  {
    hide ParseItems, ParseMembers, ParseString, ParseNumber, SkipWs;
  }

  lemma ObjectUnfold<N>(codec: Codec<N>, c: seq<byte>, off: nat, depth: nat)
    requires off < |c| && c[off] == LBRACE && Sane(codec)
    ensures ParseValue(codec, c, off, depth) ==
            if depth >= NESTING_LIMIT then None
            else
              var first := SkipWs(c, off + 1);
              if first == |c| then None
              else if c[first] == RBRACE then Some((Obj([]), first + 1))
              else
                var members := ParseMembers(codec, c, first, depth + 1);
                if members.None? then None else Some((Obj(members.value.0), members.value.1))
  {
    hide ParseItems, ParseMembers, ParseString, ParseNumber, SkipWs;
  }

  /** A key and its colon, with the white space around them. */
  ghost function KeyAt(c: seq<byte>, off: nat): (r: Option<(seq<byte>, nat)>)
    requires off <= |c|
    ensures r.Some? ==> off <= r.value.1 <= |c|
  {
    var start := SkipWs(c, off);
    if start == |c| then None
    else
      var key := ParseString(c, start);
      if key.None? then None
      else
        var colon := SkipWs(c, key.value.1);
        if colon == |c| || c[colon] != COLON then None else Some((key.value.0, SkipWs(c, colon + 1)))
  }

  lemma MemberUnfold<N>(codec: Codec<N>, c: seq<byte>, off: nat, depth: nat)
    requires off <= |c| && Sane(codec)
    ensures ParseMember(codec, c, off, depth) ==
            var key := KeyAt(c, off);
            if key.None? then None
            else
              var v := ParseValue(codec, c, key.value.1, depth);
              if v.None? then None else Some((Member(key.value.0, v.value.0), SkipWs(c, v.value.1)))
  {
    hide ParseValue, ParseString, SkipWs;
  }

  lemma RunStep(c: seq<byte>, off: nat, max: nat, text: seq<byte>)
    requires off < |c| && max > 0 && NumberChar(c[off])
    ensures text + Run(c, off, max) == (text + [c[off]]) + Run(c, off + 1, max - 1)
  {
    assert text + ([c[off]] + Run(c, off + 1, max - 1)) == (text + [c[off]]) + Run(c, off + 1, max - 1);
  }

  lemma RunEnd(c: seq<byte>, off: nat, max: nat)
    requires off <= |c| && (max == 0 || off == |c| || !NumberChar(c[off]))
    ensures Run(c, off, max) == []
  {}

  ghost function Closing<N>(c: seq<byte>, off: nat, bracket: byte): Option<(seq<Json<N>>, nat)> {
    if off < |c| && c[off] == bracket then Some(([], off + 1)) else None
  }

  ghost function ClosingM<N>(c: seq<byte>, off: nat, bracket: byte): Option<(seq<Member<N>>, nat)> {
    if off < |c| && c[off] == bracket then Some(([], off + 1)) else None
  }

  /** What follows an element, from the separator on. */
  ghost function AfterItem<N>(codec: Codec<N>, c: seq<byte>, next: nat, d: nat): Option<(seq<Json<N>>, nat)>
    requires next <= |c| && Sane(codec)
  {
    if next < |c| && c[next] == COMMA then ParseItems(codec, c, next + 1, d) else Closing(c, next, RBRACKET)
  }

  lemma AfterItemDef<N>(codec: Codec<N>, c: seq<byte>, next: nat, d: nat)
    requires next <= |c| && Sane(codec)
    ensures next < |c| && c[next] == COMMA ==> AfterItem(codec, c, next, d) == ParseItems(codec, c, next + 1, d)
    ensures next == |c| || c[next] != COMMA ==> AfterItem(codec, c, next, d) == Closing(c, next, RBRACKET)
  {
    hide ParseItems;
  }

  lemma ItemsStep<N>(codec: Codec<N>, c: seq<byte>, at: nat, d: nat, v: Json<N>, mid: nat)
    requires at <= |c| && mid <= |c| && Sane(codec) && ParseValue(codec, c, SkipWs(c, at), d) == Some((v, mid))
    ensures var after := AfterItem(codec, c, SkipWs(c, mid), d);
            ParseItems(codec, c, at, d) == if after.None? then None else Some(([v] + after.value.0, after.value.1))
  {
    hide ParseValue, SkipWs;
    assert [v] + [] == [v];
  }

  lemma ItemsStop<N>(codec: Codec<N>, c: seq<byte>, at: nat, d: nat)
    requires at <= |c| && Sane(codec) && ParseValue(codec, c, SkipWs(c, at), d).None?
    ensures ParseItems(codec, c, at, d).None?
  {
    hide ParseValue, SkipWs;
  }

  ghost function AfterMember<N>(codec: Codec<N>, c: seq<byte>, next: nat, d: nat): Option<(seq<Member<N>>, nat)>
    requires next <= |c| && Sane(codec)
  {
    if next < |c| && c[next] == COMMA then ParseMembers(codec, c, next + 1, d) else ClosingM(c, next, RBRACE)
  }

  lemma AfterMemberDef<N>(codec: Codec<N>, c: seq<byte>, next: nat, d: nat)
    requires next <= |c| && Sane(codec)
    ensures next < |c| && c[next] == COMMA ==> AfterMember(codec, c, next, d) == ParseMembers(codec, c, next + 1, d)
    ensures next == |c| || c[next] != COMMA ==> AfterMember(codec, c, next, d) == ClosingM(c, next, RBRACE)
  {
    hide ParseMembers;
  }

  lemma MembersStep<N>(codec: Codec<N>, c: seq<byte>, at: nat, d: nat, m: Member<N>, next: nat)
    requires at <= |c| && next <= |c| && Sane(codec) && ParseMember(codec, c, at, d) == Some((m, next))
    ensures var after := AfterMember(codec, c, next, d);
            ParseMembers(codec, c, at, d) == if after.None? then None else Some(([m] + after.value.0, after.value.1))
  {
    hide ParseMember;
    assert [m] + [] == [m];
  }

  lemma MembersStop<N>(codec: Codec<N>, c: seq<byte>, at: nat, d: nat)
    requires at <= |c| && Sane(codec) && ParseMember(codec, c, at, d).None?
    ensures ParseMembers(codec, c, at, d).None?
  {
    hide ParseMember;
  }

  /** cJSON_ParseWithLengthOpts: null, or a new tree that stands for the parsed value and whose
      lists, at every depth, satisfy the invariant. */
  method Parse<N>(codec: Codec<N>, value: seq<byte>, requireNul: bool)
    returns (item: Item?<Content<N>>, ghost sh: Grown<N>)
    requires Sane(codec)
    ensures match ParseText(codec, value, requireNul)
            case None => item == null
            case Some(v) =>
              && item != null && item.next == null && item.prev == null
              && fresh(All(sh)) && Stands(item, sh, v)
  {
    hide Stands, ParseValue, SkipWs, ValueOf;
    var node := new Item(Content(None, Invalid));
    item, sh := null, Shape(node, node.value, {}, []);
    if value == [] { return; }
    var buffer := new ParseBuffer(codec, value);
    if |value| > 4 && At(value, 0, BOM) { buffer.offset := 3; }
    buffer.SkipWhitespace();
    ghost var start := buffer.offset;
    var ok;
    ok, sh := buffer.ParseValueHere(node);
    if !ok { return; }
    RootOf(node, sh, ParseValue(codec, value, start, 0).value.0);
    if requireNul {
      buffer.SkipWhitespace();
      if buffer.offset >= |value| || value[buffer.offset] != 0 { return; }
    }
    item := node;
  }
}
