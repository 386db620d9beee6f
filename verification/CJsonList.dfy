/** The sibling lists of cJSON: children are chained by `next`, `prev` points back, and the
    `prev` of the first child is the last one. */
module CJsonList {

  class Item<V> {
    var next: Item?<V>
    var prev: Item?<V>
    var child: Item?<V>
    var value: V  // type, name and scalar content: everything that is not a link

    /** cJSON_New_Item: all links null. */
    constructor (value: V)
      ensures this.value == value && next == null && prev == null && child == null
    {
      this.value, next, prev, child := value, null, null, null;
    }
  }

  // ---------------------------------------------------------------- the invariant

  predicate Distinct<V>(s: seq<Item<V>>) {
    forall i, j | 0 <= i < j < |s| :: s[i] != s[j]
  }

  function Succ<V>(s: seq<Item<V>>, i: nat): Item?<V>
    requires i < |s|
  {
    if i + 1 < |s| then s[i + 1] else null
  }

  function Pred<V>(s: seq<Item<V>>, i: nat): Item<V>
    requires i < |s|
  {
    if i > 0 then s[i - 1] else s[|s| - 1]
  }

  /** The nodes of `s`, in this order, are chained: last.next is null, prev inverts next, and
      first.prev is last. */
  ghost predicate Chained<V>(s: seq<Item<V>>)
    reads s`next, s`prev
  {
    && Distinct(s)
    && (forall i | 0 <= i < |s| :: s[i].next == Succ(s, i))
    && (forall i | 0 <= i < |s| :: s[i].prev == Pred(s, i))
  }

  /** `s` is the list of children of `parent`. */
  ghost predicate Children<V>(parent: Item<V>, s: seq<Item<V>>)
    reads parent`child, s`next, s`prev
  {
    && Chained(s)
    && parent.child == (if s == [] then null else s[0])
    && parent !in s
  }

  /** A node outside the list. */
  predicate Loose<V>(item: Item<V>, parent: Item<V>, s: seq<Item<V>>) {
    item !in s && item != parent
  }

  // ---------------------------------------------------------------- reading

  /** get_array_item */
  method GetArrayItem<V>(parent: Item<V>, index: nat, ghost s: seq<Item<V>>) returns (r: Item?<V>)
    requires Children(parent, s)
    ensures r == if index < |s| then s[index] else null
  {
    r := parent.child;
    var i := index;
    ghost var k := 0;
    while r != null && i > 0
      invariant 0 <= k <= |s| && i >= 0 && i + k == index
      invariant r == if k < |s| then s[k] else null
      decreases |s| - k
    {
      i := i - 1;
      r := r.next;
      k := k + 1;
    }
  }

  /** cJSON_GetArraySize */
  method GetArraySize<V>(parent: Item<V>, ghost s: seq<Item<V>>) returns (size: nat)
    requires Children(parent, s)
    ensures size == |s|
  {
    size := 0;
    var r := parent.child;
    while r != null
      invariant 0 <= size <= |s| && r == if size < |s| then s[size] else null
      decreases |s| - size
    {
      size := size + 1;
      r := r.next;
    }
  }

  // ---------------------------------------------------------------- editing

  /** What the neighbours of s[k] are, and when it is the first or the last. */
  lemma Neighbours<V>(s: seq<Item<V>>, k: nat)
    requires Distinct(s) && k < |s|
    ensures if k + 1 < |s| then Succ(s, k) == s[k + 1] else Succ(s, k) == null
    ensures if k > 0 then Pred(s, k) == s[k - 1] else Pred(s, k) == s[|s| - 1]
    ensures s[k] == s[0] <==> k == 0
    ensures Pred(s, 0) == s[0] <==> |s| == 1
  {}

  /** node.next = x, for a node that is s[j]: no other node of the list changes. */
  method SetNext<V>(node: Item<V>, x: Item?<V>, ghost s: seq<Item<V>>, ghost j: nat)
    requires Distinct(s) && j < |s| && s[j] == node
    modifies node`next
    ensures node.next == x
    ensures forall i | 0 <= i < |s| && i != j :: s[i].next == old(s[i].next)
  {
    node.next := x;
  }

  /** node.prev = x */
  method SetPrev<V>(node: Item<V>, x: Item?<V>, ghost s: seq<Item<V>>, ghost j: nat)
    requires Distinct(s) && j < |s| && s[j] == node
    modifies node`prev
    ensures node.prev == x
    ensures forall i | 0 <= i < |s| && i != j :: s[i].prev == old(s[i].prev)
  {
    node.prev := x;
  }

  /** Both links of a node outside the list. */
  method SetLinks<V>(node: Item<V>, next: Item?<V>, prev: Item?<V>, ghost s: seq<Item<V>>)
    requires node !in s
    modifies node`next, node`prev
    ensures node.next == next && node.prev == prev
    ensures forall i | 0 <= i < |s| :: s[i].next == old(s[i].next) && s[i].prev == old(s[i].prev)
  {
    node.next := next;
    node.prev := prev;
  }

  lemma SingletonChain<V>(item: Item<V>)
    requires item.next == null && item.prev == item
    ensures Chained([item])
  {}

  /** The links after a node was put at the end make a chain exactly when it points nowhere. */
  lemma AppendedChain<V>(s: seq<Item<V>>, item: Item<V>)
    requires Distinct(s) && s != [] && item !in s
    requires forall i | 0 <= i < |s| :: s[i].next == if i == |s| - 1 then item else Succ(s, i)
    requires forall i | 0 <= i < |s| :: s[i].prev == if i == 0 then item else Pred(s, i)
    requires item.prev == s[|s| - 1]
    ensures Chained(s + [item]) <==> item.next == null
  {
    var t := s + [item];
    assert t[|s|] == item && Succ(t, |s|) == null;
    forall i | 0 <= i < |s| ensures t[i].next == Succ(t, i) { assert t[i] == s[i]; }
    forall i | 0 <= i < |t| ensures t[i].prev == Pred(t, i) {
      if i < |s| { assert t[i] == s[i]; }
    }
  }

  /** add_item_to_array. The next pointer of the item is only reset when the list is empty. */
  method AddItemToArray<V>(parent: Item<V>, item: Item?<V>, ghost s: seq<Item<V>>) returns (ok: bool)
    requires Children(parent, s)
    requires item != null && item != parent ==> item !in s
    modifies parent`child, s`next, s`prev
    modifies (if item == null then {} else {item})`next, (if item == null then {} else {item})`prev
    ensures ok == (item != null && item != parent)
    ensures !ok ==> Children(parent, s)
    ensures ok ==> (Children(parent, s + [item]) <==> s == [] || old(item.next) == null)
  {
    hide Succ, Pred, Distinct;
    if item == null || item == parent { return false; }
    var child := parent.child;
    if child == null {
      parent.child := item;
      SetLinks(item, null, item, s);
      SingletonChain(item);
      assert s + [item] == [item];
    } else if child.prev != null {
      Neighbours(s, 0);
      SetNext(child.prev, item, s, |s| - 1);
      item.prev := child.prev;
      SetPrev(parent.child, item, s, 0);
      AppendedChain(s, item);
    }
    ok := true;
  }

  /** An item that already points somewhere makes the list run on behind its last node. */
  method AppendingALinkedItem<V>(value: V) returns (parent: Item<V>, item: Item<V>, s: seq<Item<V>>)
    ensures |s| == 1 && item !in s && !Children(parent, s + [item])
  {
    parent := new Item(value);
    var first := new Item(value);
    var ok := AddItemToArray(parent, first, []);
    assert [] + [first] == [first];
    item := new Item(value);
    item.next := first;
    s := [first];
    ok := AddItemToArray(parent, item, s);
  }

  /** The links after an insertion before s[k] make a chain. */
  lemma InsertedChain<V>(s: seq<Item<V>>, k: nat, item: Item<V>)
    requires Distinct(s) && k < |s| && item !in s
    requires forall i | 0 <= i < |s| :: s[i].next == if i == k - 1 then item else Succ(s, i)
    requires forall i | 0 <= i < |s| :: s[i].prev == if i == k then item else Pred(s, i)
    requires item.next == s[k] && item.prev == Pred(s, k)
    ensures Chained(s[..k] + [item] + s[k..])
  {
    hide Distinct;
    InsertedDistinct(s, k, item);
    var t := s[..k] + [item] + s[k..];
    forall i | 0 <= i < |t| ensures t[i].next == Succ(t, i) {
      if i < k { assert t[i] == s[i]; }
      else if i > k { assert t[i] == s[i - 1]; }
    }
    forall i | 0 <= i < |t| ensures t[i].prev == Pred(t, i) {
      if i < k { assert t[i] == s[i]; }
      else if i > k { assert t[i] == s[i - 1]; }
    }
  }

  lemma InsertedDistinct<V>(s: seq<Item<V>>, k: nat, item: Item<V>)
    requires Distinct(s) && k < |s| && item !in s
    ensures Distinct(s[..k] + [item] + s[k..])
  {}

  /** cJSON_InsertItemInArray */
  method InsertItemInArray<V>(parent: Item<V>, which: int, item: Item<V>, ghost s: seq<Item<V>>) returns (ok: bool)
    requires Children(parent, s) && Loose(item, parent, s)
    modifies parent`child, item`next, item`prev, s`next, s`prev
    ensures ok == (which >= 0)
    ensures which < 0 ==> Children(parent, s)
    ensures 0 <= which < |s| ==> Children(parent, s[..which] + [item] + s[which..])
    ensures which >= |s| ==> (Children(parent, s + [item]) <==> s == [] || old(item.next) == null)
  {
    hide Succ, Pred, Distinct;
    if which < 0 { return false; }
    var after := GetArrayItem(parent, which, s);
    if after == null {
      ok := AddItemToArray(parent, item, s);
      return;
    }
    Neighbours(s, which);
    item.next := after;
    item.prev := after.prev;
    assert item.prev == Pred(s, which);
    SetPrev(after, item, s, which);
    if after == parent.child {
      assert which == 0;
      parent.child := item;
    } else {
      assert which > 0 && item.prev == s[which - 1];
      SetNext(item.prev, item, s, which - 1);
    }
    InsertedChain(s, which, item);
    ok := true;
  }

  /** The links after s[k] was taken out make a chain. */
  lemma DetachedChain<V>(s: seq<Item<V>>, k: nat)
    requires Distinct(s) && k < |s|
    requires forall i | 0 <= i < |s| && i != k :: s[i].next == if i == k - 1 then Succ(s, k) else Succ(s, i)
    requires forall i | 0 <= i < |s| && i != k ::
      s[i].prev == if i == k + 1 then Pred(s, k) else if i == 0 && k == |s| - 1 then Pred(s, k) else Pred(s, i)
    ensures Chained(s[..k] + s[k + 1..])
  {
    var t := s[..k] + s[k + 1..];
    forall i | 0 <= i < |t| ensures t[i].next == Succ(t, i) && t[i].prev == Pred(t, i) {
      if i < k { assert t[i] == s[i]; } else { assert t[i] == s[i + 1]; }
    }
  }

  /** cJSON_DetachItemViaPointer: the node leaves the list and points nowhere. */
  method DetachItemViaPointer<V>(parent: Item<V>, item: Item<V>, ghost s: seq<Item<V>>, ghost k: nat)
    requires Children(parent, s) && k < |s| && s[k] == item
    modifies parent`child, s`next, s`prev
    ensures Children(parent, s[..k] + s[k + 1..])
    ensures item.next == null && item.prev == null
  {
    hide Succ, Pred, Distinct;
    Neighbours(s, k);
    if item != parent.child {
      assert k > 0 && item.prev == s[k - 1];
      SetNext(item.prev, item.next, s, k - 1);
    }
    if item.next != null {
      assert item.next == s[k + 1];
      SetPrev(item.next, item.prev, s, k + 1);
    }
    if item == parent.child {
      assert k == 0;
      parent.child := item.next;
    } else if item.next == null {
      assert k == |s| - 1 && k > 0 && item.prev == s[k - 1];
      SetPrev(parent.child, item.prev, s, 0);
    }
    SetPrev(item, null, s, k);
    SetNext(item, null, s, k);
    DetachedChain(s, k);
  }

  /** cJSON_DetachItemFromArray */
  method DetachItemFromArray<V>(parent: Item<V>, which: int, ghost s: seq<Item<V>>) returns (r: Item?<V>)
    requires Children(parent, s)
    modifies parent`child, s`next, s`prev
    ensures 0 <= which < |s| ==> r == s[which] && Children(parent, s[..which] + s[which + 1..]) && r.next == null
    ensures !(0 <= which < |s|) ==> r == null && Children(parent, s)
  {
    if which < 0 { return null; }
    r := GetArrayItem(parent, which, s);
    if r != null { DetachItemViaPointer(parent, r, s, which); }
  }

  /** The links after `r` took the place of s[k] make a chain. */
  lemma ReplacedChain<V>(s: seq<Item<V>>, k: nat, r: Item<V>)
    requires Distinct(s) && k < |s| && r !in s
    requires r.next == Succ(s, k) && r.prev == if |s| == 1 then r else Pred(s, k)
    requires forall i | 0 <= i < |s| && i != k :: s[i].next == if i == k - 1 then r else Succ(s, i)
    requires forall i | 0 <= i < |s| && i != k ::
      s[i].prev == if i == k + 1 || (i == 0 && k == |s| - 1) then r else Pred(s, i)
    ensures Chained(s[k := r])
  {
    hide Distinct;
    ReplacedDistinct(s, k, r);
    var t := s[k := r];
    forall i | 0 <= i < |t| ensures t[i].next == Succ(t, i) {
      if i != k { assert t[i] == s[i]; }
    }
    forall i | 0 <= i < |t| ensures t[i].prev == Pred(t, i) {
      if i != k { assert t[i] == s[i]; }
    }
  }

  lemma ReplacedDistinct<V>(s: seq<Item<V>>, k: nat, r: Item<V>)
    requires Distinct(s) && k < |s| && r !in s
    ensures Distinct(s[k := r])
  {}

  /** cJSON_ReplaceItemViaPointer, up to the deletion of the replaced node. */
  method ReplaceItemViaPointer<V>(parent: Item<V>, item: Item<V>, replacement: Item<V>, ghost s: seq<Item<V>>,
                                  ghost k: nat)
    requires Children(parent, s) && k < |s| && s[k] == item
    requires replacement == item || Loose(replacement, parent, s)
    modifies parent`child, s`next, s`prev, replacement`next, replacement`prev
    ensures Children(parent, s[k := replacement])
    ensures replacement != item ==> item.next == null && item.prev == null
  {
    hide Succ, Pred, Distinct;
    if replacement == item {
      assert s[k := item] == s;
      return;
    }
    Neighbours(s, k);
    SetLinks(replacement, item.next, item.prev, s);
    if replacement.next != null {
      assert replacement.next == s[k + 1];
      SetPrev(replacement.next, replacement, s, k + 1);
    }
    if parent.child == item {
      assert k == 0;
      if parent.child.prev == parent.child {
        assert |s| == 1;
        SetLinks(replacement, replacement.next, replacement, s);
      }
      parent.child := replacement;
    } else {
      if replacement.prev != null {
        assert k > 0 && replacement.prev == s[k - 1];
        SetNext(replacement.prev, replacement, s, k - 1);
      }
      if replacement.next == null {
        SetPrev(parent.child, replacement, s, 0);
      }
    }
    SetNext(item, null, s, k);
    SetPrev(item, null, s, k);
    ReplacedChain(s, k, replacement);
  }

  // ---------------------------------------------------------------- building a list

  /** A list under construction: like Chained, but the first node's prev is still open. */
  ghost predicate Growing<V>(s: seq<Item<V>>)
    reads s`next, s`prev
  {
    && Distinct(s)
    && (forall i | 0 <= i < |s| :: s[i].next == Succ(s, i))
    && (forall i | 1 <= i < |s| :: s[i].prev == Pred(s, i))
  }

  /** One more node at the end: current->next = item, item->prev = current. */
  method Attach<V>(current: Item?<V>, item: Item<V>, ghost s: seq<Item<V>>)
    requires Growing(s) && item !in s && item.next == null
    requires current == if s == [] then null else s[|s| - 1]
    modifies (if current == null then {} else {current})`next, item`prev
    ensures Growing(s + [item])
    ensures item.next == null
  {
    if current != null {
      SetNext(current, item, s, |s| - 1);
      item.prev := current;
    }
    ghost var t := s + [item];
    forall i | 0 <= i < |t| ensures t[i].next == Succ(t, i) {
      if i < |s| { assert t[i] == s[i]; }
    }
    forall i | 1 <= i < |t| ensures t[i].prev == Pred(t, i) {
      if i < |s| { assert t[i] == s[i]; }
    }
  }

  /** The end of parse_array, parse_object and Duplicate: head->prev = current. */
  method CloseList<V>(parent: Item<V>, head: Item?<V>, current: Item?<V>, ghost s: seq<Item<V>>)
    requires Growing(s) && parent !in s
    requires head == if s == [] then null else s[0]
    requires current == if s == [] then null else s[|s| - 1]
    modifies parent`child, (if head == null then {} else {head})`prev
    ensures Children(parent, s)
  {
    if head != null { SetPrev(head, current, s, 0); }
    parent.child := head;
  }

  /** cJSON_CreateIntArray and its siblings: one new item after the other behind the current one,
      and the first node's prev at the end. */
  method CreateArray<V>(blank: V, values: seq<V>) returns (a: Item<V>, ghost s: seq<Item<V>>)
    ensures fresh(a) && fresh(set x | x in s) && Children(a, s)
    ensures |s| == |values| && forall i | 0 <= i < |s| :: s[i].value == values[i]
  {
    hide Growing, Children;
    a := new Item(blank);
    s := [];
    EmptyGrows<V>();
    var head: Item?<V>, current: Item?<V> := null, null;
    for i := 0 to |values|
      invariant fresh(a) && a !in s && fresh(set x | x in s) && Growing(s)
      invariant |s| == i && forall j | 0 <= j < i :: s[j].value == values[j]
      invariant head == if s == [] then null else s[0]
      invariant current == if s == [] then null else s[|s| - 1]
    {
      var item := new Item(values[i]);
      Attach(current, item, s);
      if head == null { head := item; }
      current := item;
      s := s + [item];
    }
    CloseList(a, head, current, s);
  }

  lemma EmptyGrows<V>()
    ensures Growing<V>([])
  {}

  // ---------------------------------------------------------------- Duplicate

  /** The ghost view of an item and everything below it: `below` are the nodes under it. */
  datatype Shape<V> = Shape(node: Item<V>, value: V, below: set<Item<V>>, kids: seq<Shape<V>>)

  ghost function All<V>(sh: Shape<V>): set<Item<V>> { {sh.node} + sh.below }

  ghost function Roots<V>(kids: seq<Shape<V>>): (s: seq<Item<V>>)
    ensures |s| == |kids| && forall i | 0 <= i < |s| :: s[i] == kids[i].node
  {
    seq(|kids|, i requires 0 <= i < |kids| => kids[i].node)
  }

  /** The children use nodes of `below`, each its own, and so on downwards. */
  ghost predicate Nested<V>(sh: Shape<V>)
    decreases sh
  {
    && sh.node !in sh.below
    && (forall i | 0 <= i < |sh.kids| :: All(sh.kids[i]) <= sh.below && Nested(sh.kids[i]))
    && (forall i, j | 0 <= i < j < |sh.kids| :: All(sh.kids[i]) !! All(sh.kids[j]))
  }

  /** Every children list in the tree satisfies the invariant. The place of the node itself in
      its parent's list does not matter. */
  ghost predicate Tree<V>(sh: Shape<V>)
    requires Nested(sh)
    reads All(sh)`child, All(sh)`value, sh.below`next, sh.below`prev
    decreases sh
  {
    && sh.node.value == sh.value
    && Children(sh.node, Roots(sh.kids))
    && forall i | 0 <= i < |sh.kids| :: Tree(sh.kids[i])
  }

  /** Equal content, links aside. */
  ghost predicate SameContent<V>(a: Shape<V>, b: Shape<V>)
    decreases a
  {
    && a.value == b.value
    && |a.kids| == |b.kids|
    && forall i | 0 <= i < |a.kids| :: SameContent(a.kids[i], b.kids[i])
  }

  /** Finished copies of the first children, not yet closed into a list. */
  ghost predicate Copies<V>(done: seq<Shape<V>>, below: set<Item<V>>)
    reads below`child, below`value, below`next, below`prev
  {
    && (forall i | 0 <= i < |done| :: All(done[i]) <= below && Nested(done[i]))
    && (forall i, j | 0 <= i < j < |done| :: All(done[i]) !! All(done[j]))
    && (forall i | 0 <= i < |done| :: Tree(done[i]))
  }

  /** Attaching one more node disturbs none of the lists inside the finished ones. */
  method AttachNew<V>(last: Item?<V>, item: Item<V>, ghost done: seq<Shape<V>>, ghost below: set<Item<V>>)
    requires Copies(done, below) && Growing(Roots(done)) && item !in below && item.next == null
    requires last == if done == [] then null else done[|done| - 1].node
    modifies (if last == null then {} else {last})`next, item`prev
    ensures Copies(done, below) && Growing(Roots(done) + [item]) && item.next == null
  {
    hide Tree, Nested, Growing, Roots;
    ghost var roots := Roots(done);
    forall i | 0 <= i < |done| ensures done[i].node !in done[i].below { NodeOutside(done[i]); }
    CopiesRoots(done, below);
    Attach(last, item, roots);
  }

  /** One more finished tree, with nodes of its own. */
  lemma AddCopy<V>(done: seq<Shape<V>>, below: set<Item<V>>, sh: Shape<V>)
    requires Copies(done, below) && Nested(sh) && Tree(sh) && All(sh) !! below
    ensures Copies(done + [sh], below + All(sh))
    ensures Roots(done + [sh]) == Roots(done) + [sh.node]
  {
    hide Tree, Nested, Roots;
    RootsSnoc(done, sh);
    ghost var t := done + [sh];
    forall i | 0 <= i < |t| ensures All(t[i]) <= below + All(sh) && Nested(t[i]) && Tree(t[i]) {
      if i < |done| { assert t[i] == done[i]; }
    }
    forall i, j | 0 <= i < j < |t| ensures All(t[i]) !! All(t[j]) {
      assert t[i] == done[i];
      if j < |done| { assert t[j] == done[j]; }
    }
  }

  /** Finished trees, chained from `head` to `current`; the first node's prev is still open. */
  ghost predicate Row<V>(done: seq<Shape<V>>, below: set<Item<V>>, head: Item?<V>, current: Item?<V>)
    reads below`child, below`value, below`next, below`prev
  {
    && Copies(done, below) && Growing(Roots(done))
    && head == (if done == [] then null else done[0].node)
    && current == (if done == [] then null else done[|done| - 1].node)
  }

  /** The same with one more node attached that is still to be filled. */
  ghost predicate RowAnd<V>(done: seq<Shape<V>>, below: set<Item<V>>, head: Item?<V>, item: Item<V>)
    reads below`child, below`value, below`next, below`prev, item`next, item`prev
  {
    && Copies(done, below) && item !in below && Growing(Roots(done) + [item])
    && head == if done == [] then item else done[0].node
  }

  lemma EmptyRow<V>()
    ensures Row<V>([], {}, null, null)
  {}

  lemma RowEnds<V>(done: seq<Shape<V>>, below: set<Item<V>>, head: Item?<V>, current: Item?<V>)
    requires Row(done, below, head, current)
    ensures current != null ==> current in below
    ensures head != null ==> head in below
  {
    hide Growing, Roots;
    CopiesRoots(done, below);
  }

  /** The head of the loops of the parser: a new item is attached behind the current one. */
  method NewChild<V>(blank: V, head: Item?<V>, current: Item?<V>, ghost done: seq<Shape<V>>, ghost below: set<Item<V>>)
    returns (item: Item<V>, first: Item<V>)
    requires Row(done, below, head, current)
    modifies (if current == null then {} else {current})`next
    ensures fresh(item) && item.child == null && item.value == blank
    ensures RowAnd(done, below, first, item)
  {
    hide Tree, Nested, Growing, Roots, Copies;
    item := new Item(blank);
    CopiesRoots(done, below);
    AttachNew(current, item, done, below);
    first := if head == null then item else head;
  }

  /** A finished copy is attached behind the last one. */
  method Link<V>(head: Item?<V>, last: Item?<V>, newchild: Item<V>, ghost done: seq<Shape<V>>,
                 ghost below: set<Item<V>>, ghost sh: Shape<V>)
    returns (first: Item<V>)
    requires Row(done, below, head, last) && newchild.next == null
    requires Nested(sh) && Tree(sh) && sh.node == newchild && All(sh) !! below
    modifies (if last == null then {} else {last})`next, newchild`prev
    ensures Row(done + [sh], below + All(sh), first, newchild)
  {
    hide Tree, Nested, Growing, Roots, Copies;
    NodeOutside(sh);
    CopiesRoots(done, below);
    AttachNew(last, newchild, done, below);
    AddCopy(done, below, sh);
    first := if head == null then newchild else head;
  }

  /** The node has become a tree. */
  lemma Filled<V>(done: seq<Shape<V>>, below: set<Item<V>>, head: Item?<V>, sh: Shape<V>)
    requires RowAnd(done, below, head, sh.node) && Nested(sh) && Tree(sh) && sh.below !! below
    ensures Row(done + [sh], below + All(sh), head, sh.node)
  {
    hide Tree, Nested, Growing, Roots, Copies;
    AddCopy(done, below, sh);
  }

  /** The end of parse_array and parse_object: the row becomes the children of `parent`. */
  method Adopt<V>(parent: Item<V>, value: V, head: Item?<V>, current: Item?<V>, ghost done: seq<Shape<V>>,
                  ghost below: set<Item<V>>)
    returns (ghost sh: Shape<V>)
    requires Row(done, below, head, current) && parent !in below
    modifies parent`child, parent`value, (if head == null then {} else {head})`prev
    ensures sh == Shape(parent, value, below, done) && Nested(sh) && Tree(sh) && parent.value == value
  {
    hide Tree, Nested, Growing, Roots, Copies, Children;
    parent.value := value;
    Close(parent, head, current, done, below);
    sh := Shape(parent, value, below, done);
    ClosedIsTree(sh);
  }

  lemma ClosedIsTree<V>(sh: Shape<V>)
    requires Copies(sh.kids, sh.below) && Children(sh.node, Roots(sh.kids)) && sh.node !in sh.below
    requires sh.node.value == sh.value
    ensures Nested(sh) && Tree(sh)
  {
    hide Children, Roots;
  }

  lemma NodeOutside<V>(sh: Shape<V>)
    requires Nested(sh)
    ensures sh.node !in sh.below
  {}

  lemma RootsSnoc<V>(kids: seq<Shape<V>>, x: Shape<V>)
    ensures Roots(kids + [x]) == Roots(kids) + [x.node]
  {}

  /** cJSON_Duplicate: a fresh tree with the same content whose lists satisfy the invariant. */
  method Duplicate<V>(item: Item<V>, recurse: bool, ghost sh: Shape<V>) returns (copy: Item<V>, ghost csh: Shape<V>)
    requires Nested(sh) && Tree(sh) && sh.node == item
    ensures Nested(csh) && csh.node == copy && fresh(All(csh)) && Tree(csh)
    ensures copy.next == null && copy.prev == null
    ensures if recurse then SameContent(csh, sh) else csh.value == sh.value && csh.kids == []
    decreases sh, 0
  {
    hide Tree, Nested, Row, SameContent, SameContents;
    FirstKid(sh);
    copy := new Item(item.value);
    assert copy !in All(sh);
    if !recurse {
      csh := Shape(copy, copy.value, {}, []);
      LoneTree(copy);
      return;
    }
    var child := item.child;
    var head: Item?<V>, last: Item?<V> := null, null;
    ghost var done: seq<Shape<V>>, below: set<Item<V>>, k := [], {}, 0;
    EmptyRow<V>();
    NoContents(sh.kids);
    while child != null
      invariant 0 <= k <= |sh.kids| && child == if k < |sh.kids| then sh.kids[k].node else null
      invariant Tree(sh) && |done| == k
      invariant Row(done, below, head, last) && fresh(below) && copy !in below
      invariant fresh(copy) && copy.next == null && copy.prev == null && copy.value == sh.value
      invariant SameContents(done, sh.kids, k)
      decreases |sh.kids| - k
    {
      NextKid(sh, k);
      RowEnds(done, below, head, last);
      ghost var nsh;
      head, last, nsh := CopyChild(child, sh.kids[k], head, last, done, below);
      SameContentsSnoc(done, sh.kids, nsh);
      done, below := done + [nsh], below + All(nsh);
      NextKid(sh, k);
      k := k + 1;
      child := child.next;
    }
    RowEnds(done, below, head, last);
    csh := Adopt(copy, copy.value, head, last, done, below);
    SameContentsAll(csh, sh);
  }

  /** The body of the loop: one child is duplicated and attached behind the last copy. */
  method CopyChild<V>(child: Item<V>, ghost sh: Shape<V>, head: Item?<V>, last: Item?<V>, ghost done: seq<Shape<V>>,
                      ghost below: set<Item<V>>)
    returns (first: Item<V>, newchild: Item<V>, ghost nsh: Shape<V>)
    requires Nested(sh) && Tree(sh) && sh.node == child && Row(done, below, head, last) && below !! All(sh)
    modifies (if last == null then {} else {last})`next
    ensures fresh(All(nsh)) && SameContent(nsh, sh) && Row(done + [nsh], below + All(nsh), first, newchild)
    decreases sh, 1
  {
    hide Tree, Nested, Row, SameContent;
    RowEnds(done, below, head, last);
    newchild, nsh := Duplicate(child, true, sh);
    first := Link(head, last, newchild, done, below, nsh);
  }

  lemma NoContents<V>(kids: seq<Shape<V>>)
    ensures SameContents([], kids, 0)
  {}

  lemma SameContentsAll<V>(a: Shape<V>, b: Shape<V>)
    requires a.value == b.value && |a.kids| == |b.kids| && SameContents(a.kids, b.kids, |a.kids|)
    ensures SameContent(a, b)
  {}

  ghost predicate SameContents<V>(done: seq<Shape<V>>, kids: seq<Shape<V>>, k: nat) {
    k <= |done| && k <= |kids| && forall i | 0 <= i < k :: SameContent(done[i], kids[i])
  }

  lemma SameContentsSnoc<V>(done: seq<Shape<V>>, kids: seq<Shape<V>>, x: Shape<V>)
    requires |done| < |kids| && SameContents(done, kids, |done|) && SameContent(x, kids[|done|])
    ensures SameContents(done + [x], kids, |done| + 1)
  {}

  /** Closing the list of the copies disturbs none of the lists inside them. */
  method Close<V>(parent: Item<V>, head: Item?<V>, last: Item?<V>, ghost done: seq<Shape<V>>, ghost below: set<Item<V>>)
    requires Copies(done, below) && Growing(Roots(done)) && parent !in below
    requires head == if done == [] then null else done[0].node
    requires last == if done == [] then null else done[|done| - 1].node
    modifies parent`child, (if head == null then {} else {head})`prev
    ensures Copies(done, below) && Children(parent, Roots(done))
  {
    hide Tree, Nested, Growing, Roots, Children;
    forall i | 0 <= i < |done| ensures done[i].node !in done[i].below { NodeOutside(done[i]); }
    CopiesRoots(done, below);
    CloseList(parent, head, last, Roots(done));
  }

  lemma LoneTree<V>(copy: Item<V>)
    requires copy.child == null
    ensures var sh := Shape(copy, copy.value, {}, []); Nested(sh) && Tree(sh)
  {}

  lemma FirstKid<V>(sh: Shape<V>)
    requires Nested(sh) && Tree(sh)
    ensures sh.node.value == sh.value
    ensures sh.node.child == if |sh.kids| > 0 then sh.kids[0].node else null
  {}

  lemma NextKid<V>(sh: Shape<V>, k: nat)
    requires Nested(sh) && Tree(sh) && k < |sh.kids|
    ensures Nested(sh.kids[k]) && Tree(sh.kids[k])
    ensures sh.kids[k].node.next == if k + 1 < |sh.kids| then sh.kids[k + 1].node else null
  {
    assert Roots(sh.kids)[k].next == Succ(Roots(sh.kids), k);
  }

  lemma CopiesRoots<V>(done: seq<Shape<V>>, below: set<Item<V>>)
    requires Copies(done, below)
    ensures |Roots(done)| == |done|
    ensures forall i | 0 <= i < |done| :: Roots(done)[i] == done[i].node && done[i].node in below
  {
    hide Tree;
  }
}
