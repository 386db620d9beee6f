/** The growing array of zlog and its sorted insertion. */
module ZlogArrayList {

  /** A slot of the array: a null pointer, or a file with its archive index. */
  datatype Slot = Null | File(index: nat)

  predicate Sorted(s: seq<nat>) {
    forall i, j | 0 <= i < j < |s| :: s[i] <= s[j]
  }

  /** Insertion before the first element that is greater. */
  function Inserted(s: seq<nat>, x: nat): seq<nat> {
    if s == [] then [x]
    else if s[0] > x then [x] + s
    else [s[0]] + Inserted(s[1..], x)
  }

  /** Insertion adds exactly the new element. */
  lemma {:induction false} InsertedAdds(s: seq<nat>, x: nat)
    ensures multiset(Inserted(s, x)) == multiset(s) + multiset{x}
  {
    if s != [] {
      assert s == [s[0]] + s[1..];
      if s[0] <= x { InsertedAdds(s[1..], x); }
    }
  }

  /** Insertion keeps the order. */
  lemma {:induction false} InsertedSorts(s: seq<nat>, x: nat)
    requires Sorted(s)
    ensures Sorted(Inserted(s, x))
    ensures forall y | y in Inserted(s, x) :: y == x || y in s
  {
    if s != [] && s[0] <= x {
      InsertedSorts(s[1..], x);
      SortedCons(s[0], Inserted(s[1..], x));
    }
  }

  lemma SortedCons(x: nat, s: seq<nat>)
    requires Sorted(s) && forall y | y in s :: x <= y
    ensures Sorted([x] + s)
  {
    var t := [x] + s;
    forall i, j | 0 <= i < j < |t| ensures t[i] <= t[j] {
      if i == 0 { assert t[j] in s; } else { assert t[i] == s[i - 1] && t[j] == s[j - 1]; }
    }
  }

  /** Insertion into a list of files. */
  lemma FilesInserted(xs: seq<nat>, x: nat, k: nat)
    requires k <= |xs|
    ensures Files(xs[..k] + [x] + xs[k..]) == Files(xs)[..k] + [File(x)] + Files(xs)[k..]
    ensures Files(xs) + Nulls(0) + [File(x)] == Files(xs)[..|xs|] + [File(x)] + Files(xs)[|xs|..]
  {}

  /** Where the insertion happens. */
  lemma {:induction false} InsertedAt(s: seq<nat>, x: nat, k: nat)
    requires k <= |s| && (forall i | 0 <= i < k :: s[i] <= x) && (k < |s| ==> s[k] > x)
    ensures Inserted(s, x) == s[..k] + [x] + s[k..]
  {
    if k > 0 {
      InsertedAt(s[1..], x, k - 1);
      assert s[1..][..k - 1] == s[1..k] && s[1..][k - 1..] == s[k..];
    }
  }

  /** A list of nothing but files. */
  function Files(xs: seq<nat>): (s: seq<Slot>)
    ensures |s| == |xs| && forall i | 0 <= i < |s| :: s[i] == File(xs[i])
  {
    seq(|xs|, i requires 0 <= i < |xs| => File(xs[i]))
  }

  function Nulls(n: nat): seq<Slot> {
    seq(n, _ => Null)
  }

  lemma Stored(s: seq<Slot>, n: nat, idx: nat, x: Slot)
    requires n <= |s| && s[n..] == Nulls(|s| - n) && idx < |s|
    ensures idx < n ==> s[idx := x][..n] == s[..n][idx := x] && s[idx := x][n..] == s[n..]
    ensures idx >= n ==>
      && s[idx := x][..idx + 1] == s[..n] + Nulls(idx - n) + [x]
      && s[idx := x][idx + 1..] == Nulls(|s| - idx - 1)
  {
    if idx >= n {
      forall i | n <= i < |s| ensures s[i] == Null { assert s[i] == s[n..][i - n]; }
    }
  }

  lemma Shifted(s: seq<Slot>, n: nat, idx: nat, x: Slot, t: seq<Slot>)
    requires idx < n < |s| == |t| && s[n..] == Nulls(|s| - n)
    requires t[idx] == x
    requires forall k | 0 <= k < idx || n < k < |t| :: t[k] == s[k]
    requires forall k | idx < k <= n :: t[k] == s[k - 1]
    ensures t[..n + 1] == s[..n][..idx] + [x] + s[..n][idx..]
    ensures t[n + 1..] == Nulls(|s| - n - 1)
  {
    forall i | n <= i < |s| ensures s[i] == Null { assert s[i] == s[n..][i - n]; }
    var a, b := t[..n + 1], s[..n][..idx] + [x] + s[..n][idx..];
    forall i | 0 <= i < |a| ensures a[i] == b[i] {
      if i > idx { assert b[i] == s[..n][idx..][i - idx - 1]; }
    }
    var c := t[n + 1..];
    forall i | 0 <= i < |c| ensures c[i] == Null { assert c[i] == t[n + 1 + i]; }
  }

  /** The slots of an array of `size` after zc_arraylist_expand_inner. */
  function Expanded(size: nat, max: nat): nat {
    if 2 * size > max then 2 * size else max
  }

  /** zc_arraylist_set makes room for index idx, rather than for one element more, so its one
      expansion gives the slot exactly when idx is below twice the size. */
  lemma SetHasRoom(size: nat, idx: nat)
    requires size > 0
    ensures idx < (if idx > size - 1 then Expanded(size, idx) else size) <==> idx < 2 * size
  {}

  /** Index 64 in an array of 32: the expansion ends right in front of it. */
  lemma NoRoomAtTwice()
    ensures Expanded(32, 64) == 64
  {}

  class ArrayList {
    var slots: array<Slot>
    var len: nat

    /** The slots behind the list are null. */
    ghost predicate Valid()
      reads this, slots
    {
      len <= slots.Length && slots.Length > 0 && slots[len..] == Nulls(slots.Length - len)
    }

    ghost function Elements(): seq<Slot>
      requires Valid()
      reads this, slots
    {
      slots[..len]
    }

    /** zc_arraylist_new: ARRAY_LIST_DEFAULT_SIZE empty slots. */
    constructor ()
      ensures Valid() && fresh(slots) && Elements() == []
    {
      len := 0;
      slots := new Slot[32](_ => Null);
    }

    /** zc_arraylist_expand_inner: twice the slots, or `max` of them. */
    method Expand(max: nat)
      requires Valid()
      modifies this
      ensures Valid() && Elements() == old(Elements()) && len == old(len) && fresh(slots)
      ensures slots.Length == Expanded(old(slots.Length), max)
    {
      var size := Expanded(slots.Length, max);
      var tmp := new Slot[size](_ => Null);
      forall i | 0 <= i < slots.Length { tmp[i] := slots[i]; }
      assert forall i | len <= i < slots.Length :: slots[i] == slots[len..][i - len];
      slots := tmp;
    }

    /** zc_arraylist_set: the gap up to the new element reads as null. By SetHasRoom the source
        stores inside its array exactly under this precondition. */
    method Set(idx: nat, x: Slot)
      requires Valid() && idx < 2 * slots.Length
      modifies this, slots
      ensures Valid() && (slots == old(slots) || fresh(slots))
      ensures Elements() == if idx < old(len) then old(Elements())[idx := x]
                            else old(Elements()) + Nulls(idx - old(len)) + [x]
    {
      hide Nulls;
      if idx > slots.Length - 1 { Expand(idx); }
      ghost var s, n := slots[..], len;
      Stored(s, n, idx, x);
      slots[idx] := x;
      assert slots[..] == s[idx := x];
      if len <= idx { len := idx + 1; }
    }

    /** zc_arraylist_insert_inner: a null is overwritten, anything else moves up. */
    method InsertInner(idx: nat, x: Slot)
      requires Valid() && idx < len
      modifies this, slots
      ensures Valid() && (slots == old(slots) || fresh(slots))
      ensures Elements() == if old(Elements())[idx] == Null then old(Elements())[idx := x]
                            else old(Elements())[..idx] + [x] + old(Elements())[idx..]
    {
      hide Nulls;
      if slots[idx] == Null {
        slots[idx] := x;
        return;
      }
      if len > slots.Length - 1 { Expand(0); }
      ghost var s := slots[..];
      MoveUp(idx, x);
      Shifted(s, len, idx, x, slots[..]);
      len := len + 1;
    }

    /** The memmove, and the new element in the gap. */
    method MoveUp(idx: nat, x: Slot)
      requires idx < len < slots.Length
      modifies slots
      ensures slots[idx] == x
      ensures forall k | 0 <= k < idx || len < k < slots.Length :: slots[k] == old(slots[k])
      ensures forall k | idx < k <= len :: slots[k] == old(slots[k - 1])
    {
      forall k | idx < k <= len { slots[k] := slots[k - 1]; }
      slots[idx] := x;
    }

    /** zc_arraylist_sortadd with zlog_file_cmp: before the first greater index. */
    method SortAdd(index: nat, ghost xs: seq<nat>)
      requires Valid() && Elements() == Files(xs)
      modifies this, slots
      ensures Valid() && (slots == old(slots) || fresh(slots))
      ensures Elements() == Files(Inserted(xs, index))
    {
      hide Files, Nulls, Inserted;
      var i := FirstGreater(index, xs);
      InsertedAt(xs, index, i);
      FilesInserted(xs, index, i);
      if i == len { Set(len, File(index)); } else { InsertInner(i, File(index)); }
    }

    method FirstGreater(index: nat, ghost xs: seq<nat>) returns (i: nat)
      requires Valid() && Elements() == Files(xs)
      ensures i <= len == |xs| && (forall j | 0 <= j < i :: xs[j] <= index)
      ensures i < len ==> xs[i] > index && Files(xs)[i] != Null
    {
      assert |xs| == len && forall j | 0 <= j < len :: slots[j] == Files(xs)[j];
      i := 0;
      while i < len && slots[i].index <= index
        invariant 0 <= i <= len
        invariant forall j | 0 <= j < i :: xs[j] <= index
      {
        i := i + 1;
      }
    }
  }
}
