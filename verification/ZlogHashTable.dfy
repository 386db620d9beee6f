/** The chained hash table of zlog: buckets of doubly linked entries, rehashed when they fill
    up, refine a finite map. */
module ZlogHashTable {
  import opened Options

  class Entry<K, V> {
    var hashKey: nat
    var key: K
    var value: V
    var next: Entry?<K, V>
    var prev: Entry?<K, V>

    constructor (hashKey: nat, key: K, value: V)
      ensures this.hashKey == hashKey && this.key == key && this.value == value && next == null && prev == null
    {
      this.hashKey, this.key, this.value, next, prev := hashKey, key, value, null, null;
    }
  }

  // ---------------------------------------------------------------- one bucket

  function Succ<K, V>(s: seq<Entry<K, V>>, i: nat): Entry?<K, V>
    requires i < |s|
  {
    if i + 1 < |s| then s[i + 1] else null
  }

  function Pred<K, V>(s: seq<Entry<K, V>>, i: nat): Entry?<K, V>
    requires i < |s|
  {
    if i > 0 then s[i - 1] else null
  }

  function First<K, V>(s: seq<Entry<K, V>>): Entry?<K, V> {
    if s == [] then null else s[0]
  }

  predicate Distinct<K, V>(s: seq<Entry<K, V>>) {
    forall i, j | 0 <= i < j < |s| :: s[i] != s[j]
  }

  ghost function Members<K, V>(s: seq<Entry<K, V>>): set<Entry<K, V>> {
    set e | e in s
  }

  ghost predicate Forward<K, V>(s: seq<Entry<K, V>>)
    reads Members(s)`next
  {
    forall i | 0 <= i < |s| :: s[i].next == Succ(s, i)
  }

  ghost predicate Backward<K, V>(s: seq<Entry<K, V>>)
    reads Members(s)`prev
  {
    forall i | 0 <= i < |s| :: s[i].prev == Pred(s, i)
  }

  /** The entries of `s`, in this order, are doubly linked. */
  ghost predicate Linked<K, V>(s: seq<Entry<K, V>>)
    reads Members(s)`next, Members(s)`prev
  {
    Distinct(s) && Forward(s) && Backward(s)
  }

  // ---------------------------------------------------------------- the bucket array

  ghost function Nodes<K, V>(chains: seq<seq<Entry<K, V>>>): set<Entry<K, V>> {
    set i, e | 0 <= i < |chains| && e in chains[i] :: e
  }

  /** Every bucket heads its chain, and an entry is in the bucket its hash selects. */
  ghost predicate Laid<K, V>(heads: seq<Entry?<K, V>>, chains: seq<seq<Entry<K, V>>>)
    reads Nodes(chains)`next, Nodes(chains)`prev, Nodes(chains)`hashKey
  {
    && |heads| == |chains| > 0
    && (forall i | 0 <= i < |chains| :: heads[i] == First(chains[i]))
    && (forall i | 0 <= i < |chains| :: Linked(chains[i]))
    && (forall i, e | 0 <= i < |chains| && e in chains[i] :: e.hashKey % |chains| == i)
  }

  lemma PushedLinked<K, V>(s: seq<Entry<K, V>>, e: Entry<K, V>)
    requires Distinct(s) && e !in s && Forward(s)
    requires forall i | 1 <= i < |s| :: s[i].prev == Pred(s, i)
    requires s != [] ==> s[0].prev == e
    requires e.next == First(s) && e.prev == null
    ensures Linked([e] + s)
  {
    var t := [e] + s;
    forall i | 0 <= i < |t| ensures t[i].next == Succ(t, i) {
      if i > 0 { assert t[i] == s[i - 1]; }
    }
    forall i | 0 <= i < |t| ensures t[i].prev == Pred(t, i) {
      if i > 0 { assert t[i] == s[i - 1]; }
    }
  }

  lemma PushedNodes<K, V>(chains: seq<seq<Entry<K, V>>>, j: nat, e: Entry<K, V>)
    requires j < |chains|
    ensures Nodes(chains[j := [e] + chains[j]]) == Nodes(chains) + {e}
  {
    var c2 := chains[j := [e] + chains[j]];
    forall x | x in Nodes(chains) + {e} ensures x in Nodes(c2) {
      if x in Nodes(chains) {
        var i :| 0 <= i < |chains| && x in chains[i];
        assert x in c2[i];
      } else {
        assert x in c2[j];
      }
    }
    forall x | x in Nodes(c2) ensures x in Nodes(chains) + {e} {
      var i :| 0 <= i < |c2| && x in c2[i];
      assert x != e ==> x in chains[i];
    }
  }

  method Prepend<K, V>(head: Entry?<K, V>, e: Entry<K, V>, ghost s: seq<Entry<K, V>>)
    requires Linked(s) && head == First(s) && e !in s
    modifies e`next, e`prev, (if head == null then {} else {head})`prev
    ensures Linked([e] + s)
  {
    e.next := null;
    e.prev := null;
    if head != null {
      head.prev := e;
      e.next := head;
    }
    PushedLinked(s, e);
  }

  lemma NotIn<K, V>(chains: seq<seq<Entry<K, V>>>, j: nat, e: Entry<K, V>)
    requires j < |chains| && e !in Nodes(chains)
    ensures e !in chains[j]
    ensures forall i | 0 <= i < |chains| :: e !in Members(chains[i])
  {}

  /** Chains share no entry: the hash tells the bucket. */
  lemma Apart<K, V>(heads: seq<Entry?<K, V>>, chains: seq<seq<Entry<K, V>>>, i: nat)
    requires Laid(heads, chains) && i < |chains|
    ensures forall j | 0 <= j < |chains| && j != i :: Members(chains[j]) !! Members(chains[i])
    ensures forall j | 0 <= j < |chains| :: Members(chains[j]) <= Nodes(chains)
    ensures First(chains[i]) != null ==> First(chains[i]) in Members(chains[i])
  {
    hide Linked;
    forall j, e | 0 <= j < |chains| && e in chains[j] ensures e in Nodes(chains) && (j != i ==> e !in chains[i]) {
      assert e.hashKey % |chains| == j;
      if e in chains[i] { assert e.hashKey % |chains| == i; }
    }
  }

  /** Puts an entry at the head of the bucket its hash selects, as put and rehash do. */
  method Push<K, V>(tab: array<Entry?<K, V>>, e: Entry<K, V>, ghost chains: seq<seq<Entry<K, V>>>)
    returns (ghost after: seq<seq<Entry<K, V>>>)
    requires Laid(tab[..], chains) && e !in Nodes(chains)
    modifies tab, e`next, e`prev, Nodes(chains)`prev
    ensures |after| == |chains| && Nodes(after) == Nodes(chains) + {e}
    ensures Laid(tab[..], after)
  {
    hide Linked, Nodes, First;
    var j := e.hashKey % tab.Length;
    Apart(tab[..], chains, j);
    assert tab[..][j] == tab[j];
    NotIn(chains, j, e);
    Prepend(tab[j], e, chains[j]);
    forall i | 0 <= i < |chains| && i != j ensures Linked(chains[i]) {
      assert old(Linked(chains[i]));
      assert e !in Members(chains[i]);
    }
    after := chains[j := [e] + chains[j]];
    tab[j] := e;
    PushedNodes(chains, j, e);
    forall i | 0 <= i < |after| ensures tab[..][i] == First(after[i]) && Linked(after[i]) {
      FirstOfPushed(chains[j], e);
    }
    forall i, x | 0 <= i < |after| && x in after[i] ensures x.hashKey % |after| == i {
      assert x == e || x in chains[i];
    }
  }

  lemma FirstOfPushed<K, V>(s: seq<Entry<K, V>>, e: Entry<K, V>)
    ensures First([e] + s) == e
  {}

  lemma Step<K, V>(s: seq<Entry<K, V>>, k: nat)
    requires k < |s| && Distinct(s)
    ensures First(s[k..]) == s[k] && s[k] !in s[..k] && s[k] !in s[k + 1..]
    ensures Members(s[..k + 1]) == Members(s[..k]) + {s[k]}
    ensures Succ(s[k..], 0) == First(s[k + 1..])
    ensures Members(s[k + 1..]) <= Members(s) && s[k] !in Members(s[k + 1..])
  {
    assert s[..k + 1] == s[..k] + [s[k]];
  }

  lemma ForwardTail<K, V>(s: seq<Entry<K, V>>, k: nat)
    requires k < |s| && Forward(s[k..])
    ensures s[k].next == Succ(s[k..], 0)
    ensures Forward(s[k + 1..])
  {
    var t, u := s[k..], s[k + 1..];
    assert t[0] == s[k];
    forall i | 0 <= i < |u| ensures u[i].next == Succ(u, i) {
      assert u[i] == t[i + 1] && Succ(u, i) == Succ(t, i + 1);
    }
  }

  /** The inner loop of rehash: every entry of one old bucket goes to the head of its new one. */
  method MoveChain<K, V>(head: Entry?<K, V>, tab: array<Entry?<K, V>>, ghost s: seq<Entry<K, V>>,
                         ghost chains: seq<seq<Entry<K, V>>>)
    returns (ghost after: seq<seq<Entry<K, V>>>)
    requires Laid(tab[..], chains) && Members(s) !! Nodes(chains)
    requires Distinct(s) && Forward(s) && head == First(s)
    modifies tab, Members(s)`next, Members(s)`prev, Nodes(chains)`prev
    ensures |after| == |chains| && Nodes(after) == Nodes(chains) + Members(s)
    ensures Laid(tab[..], after)
  {
    hide Laid, Nodes, First, Forward, Succ, Distinct;
    after := chains;
    var p := head;
    ghost var k := 0;
    assert s[0..] == s;
    while p != null
      invariant 0 <= k <= |s| && p == First(s[k..]) && Forward(s[k..])
      invariant |after| == |chains| && Nodes(after) == Nodes(chains) + Members(s[..k])
      invariant Laid(tab[..], after)
      decreases |s| - k
    {
      FirstIsNull(s, k);
      Step(s, k);
      ForwardTail(s, k);
      var q := p.next;
      after := Push(tab, p, after);
      p := q;
      k := k + 1;
    }
    FirstIsNull(s, k);
    assert s[..k] == s;
  }

  lemma FirstIsNull<K, V>(s: seq<Entry<K, V>>, k: nat)
    requires k <= |s|
    ensures First(s[k..]) == null <==> k == |s|
  {}

  /** zc_hashtable_rehash: twice as many buckets, the same entries. */
  method Rehash<K, V>(tab: array<Entry?<K, V>>, ghost chains: seq<seq<Entry<K, V>>>)
    returns (wider: array<Entry?<K, V>>, ghost after: seq<seq<Entry<K, V>>>)
    requires Laid(tab[..], chains)
    modifies Nodes(chains)`next, Nodes(chains)`prev
    ensures fresh(wider) && wider.Length == 2 * tab.Length
    ensures |after| == wider.Length && Nodes(after) == Nodes(chains)
    ensures Laid(wider[..], after)
  {
    hide Laid, Nodes, First, Forward, Distinct;
    LaidParts(tab[..], chains);
    wider := new Entry?<K, V>[2 * tab.Length](_ => null);
    after := seq(2 * tab.Length, _ => []);
    EmptyLaid(wider[..], after);
    NodesPrefix(chains, 0);
    var i := 0;
    while i < tab.Length
      invariant 0 <= i <= tab.Length && |after| == wider.Length == 2 * tab.Length
      invariant tab[..] == old(tab[..]) && fresh(wider)
      invariant Nodes(after) == Nodes(chains[..i])
      invariant Laid(wider[..], after)
      invariant forall r | i <= r < |chains| :: Forward(chains[r])
    {
      NodesPrefix(chains, i);
      assert tab[..][i] == tab[i];
      after := MoveChain(tab[i], wider, chains[i], after);
      i := i + 1;
    }
    assert chains[..i] == chains;
  }

  lemma EmptyLaid<K, V>(heads: seq<Entry?<K, V>>, chains: seq<seq<Entry<K, V>>>)
    requires |heads| == |chains| > 0
    requires forall i | 0 <= i < |heads| :: heads[i] == null
    requires forall i | 0 <= i < |chains| :: chains[i] == []
    ensures Laid(heads, chains) && Nodes(chains) == {}
  {}

  lemma LaidParts<K, V>(heads: seq<Entry?<K, V>>, chains: seq<seq<Entry<K, V>>>)
    requires Laid(heads, chains)
    ensures |heads| == |chains| > 0
    ensures forall i | 0 <= i < |chains| :: heads[i] == First(chains[i]) && Distinct(chains[i]) && Forward(chains[i])
    ensures forall i, j | 0 <= i < j < |chains| :: Members(chains[i]) !! Members(chains[j])
    ensures forall i | 0 <= i < |chains| :: Members(chains[i]) <= Nodes(chains)
  {
    hide Distinct, Forward, First, Nodes;
    forall i | 0 <= i < |chains|
      ensures forall j | 0 <= j < |chains| && j != i :: Members(chains[j]) !! Members(chains[i])
      ensures Members(chains[i]) <= Nodes(chains)
    {
      Apart(heads, chains, i);
    }
  }

  lemma LaidSize<K, V>(heads: seq<Entry?<K, V>>, chains: seq<seq<Entry<K, V>>>)
    requires Laid(heads, chains)
    ensures |heads| == |chains| > 0
  {}

  lemma NodesPrefix<K, V>(chains: seq<seq<Entry<K, V>>>, i: nat)
    requires i < |chains|
    requires forall i, j | 0 <= i < j < |chains| :: Members(chains[i]) !! Members(chains[j])
    ensures Nodes(chains[..0]) == {} && Nodes(chains[..i]) <= Nodes(chains)
    ensures Nodes(chains[..i + 1]) == Nodes(chains[..i]) + Members(chains[i])
    ensures Nodes(chains[..i]) !! Members(chains[i])
  {
    forall e ensures e in Nodes(chains[..i + 1]) <==> e in Nodes(chains[..i]) + Members(chains[i]) {
      if e in chains[i] { assert e in chains[..i + 1][i]; }
      if e in Nodes(chains[..i]) {
        var j :| 0 <= j < i && e in chains[..i][j];
        assert e in chains[..i + 1][j] && e in chains[j];
        assert e in Members(chains[j]);
      }
    }
  }

  // ---------------------------------------------------------------- removing

  lemma UnlinkedChain<K, V>(s: seq<Entry<K, V>>, k: nat)
    requires Distinct(s) && k < |s|
    requires forall i | 0 <= i < |s| && i != k :: s[i].next == if i == k - 1 then Succ(s, k) else Succ(s, i)
    requires forall i | 0 <= i < |s| && i != k :: s[i].prev == if i == k + 1 then Pred(s, k) else Pred(s, i)
    ensures Linked(s[..k] + s[k + 1..])
  {
    var t := s[..k] + s[k + 1..];
    forall i | 0 <= i < |t| ensures t[i].next == Succ(t, i) {
      if i < k { assert t[i] == s[i]; } else { assert t[i] == s[i + 1]; }
    }
    forall i | 0 <= i < |t| ensures t[i].prev == Pred(t, i) {
      if i < k { assert t[i] == s[i]; } else { assert t[i] == s[i + 1]; }
    }
  }

  /** Takes s[k] out of its bucket; the neighbours close the gap. */
  method Unlink<K, V>(p: Entry<K, V>, ghost s: seq<Entry<K, V>>, ghost k: nat)
    requires Linked(s) && k < |s| && s[k] == p
    modifies Members(s)`next, Members(s)`prev
    ensures Linked(s[..k] + s[k + 1..])
    ensures p.next == old(p.next) && p.prev == old(p.prev)
  {
    assert p.next == Succ(s, k) && p.prev == Pred(s, k);
    if p.next != null { p.next.prev := p.prev; }
    if p.prev != null { p.prev.next := p.next; }
    UnlinkedChain(s, k);
  }

  lemma UnlinkedNodes<K, V>(heads: seq<Entry?<K, V>>, chains: seq<seq<Entry<K, V>>>, j: nat, k: nat)
    requires Laid(heads, chains) && j < |chains| && k < |chains[j]|
    ensures var after := chains[j := chains[j][..k] + chains[j][k + 1..]];
            Nodes(after) == Nodes(chains) - {chains[j][k]}
  {
    hide Forward, Backward;
    var s, e := chains[j], chains[j][k];
    var t := s[..k] + s[k + 1..];
    var after := chains[j := t];
    assert s == s[..k] + [e] + s[k + 1..];
    assert Distinct(s);
    assert e !in t;
    forall x ensures x in Nodes(after) <==> x in Nodes(chains) - {e} {
      if x in Nodes(chains) && x != e {
        var i :| 0 <= i < |chains| && x in chains[i];
        assert x in after[i];
      }
      if x in Nodes(after) {
        var i :| 0 <= i < |after| && x in after[i];
        assert x in chains[i] && x.hashKey % |chains| == i;
        assert e in chains[j] && e.hashKey % |chains| == j;
      }
    }
  }

  lemma FirstOfUnlinked<K, V>(s: seq<Entry<K, V>>, k: nat)
    requires k < |s|
    ensures First(s[..k] + s[k + 1..]) == if k == 0 then Succ(s, 0) else First(s)
    ensures Pred(s, k) == null <==> k == 0
  {}

  /** The end of zc_hashtable_remove: p leaves the table. */
  method Drop<K, V>(tab: array<Entry?<K, V>>, p: Entry<K, V>, ghost chains: seq<seq<Entry<K, V>>>)
    returns (ghost after: seq<seq<Entry<K, V>>>)
    requires Laid(tab[..], chains) && p in Nodes(chains)
    modifies tab, Nodes(chains)`next, Nodes(chains)`prev
    ensures |after| == |chains| && Nodes(after) == Nodes(chains) - {p}
    ensures Laid(tab[..], after)
  {
    hide Linked, Nodes, First, Succ, Pred;
    var j := p.hashKey % tab.Length;
    ghost var k := Position(tab[..], chains, p);
    Apart(tab[..], chains, j);
    UnlinkedNodes(tab[..], chains, j, k);
    FirstOfUnlinked(chains[j], k);
    LinksOf(chains[j], k);
    assert tab[..][j] == tab[j];
    Unlink(p, chains[j], k);
    forall i | 0 <= i < |chains| && i != j ensures Linked(chains[i]) { assert old(Linked(chains[i])); }
    after := chains[j := chains[j][..k] + chains[j][k + 1..]];
    if p.prev == null { tab[j] := p.next; }
    forall i | 0 <= i < |after| ensures tab[..][i] == First(after[i]) && Linked(after[i]) {}
    forall i, x | 0 <= i < |after| && x in after[i] ensures x.hashKey % |after| == i {
      assert x in chains[i];
    }
  }

  lemma Position<K, V>(heads: seq<Entry?<K, V>>, chains: seq<seq<Entry<K, V>>>, p: Entry<K, V>) returns (k: nat)
    requires Laid(heads, chains) && p in Nodes(chains)
    ensures var j := p.hashKey % |chains|; k < |chains[j]| && chains[j][k] == p
  {
    var s := chains[p.hashKey % |chains|];
    k :| 0 <= k < |s| && s[k] == p;
  }

  lemma LinksOf<K, V>(s: seq<Entry<K, V>>, k: nat)
    requires Linked(s) && k < |s|
    ensures s[k].next == Succ(s, k) && s[k].prev == Pred(s, k)
  {}

  // ---------------------------------------------------------------- the order of begin and next

  ghost function Flat<K, V>(chains: seq<seq<Entry<K, V>>>): seq<Entry<K, V>> {
    if chains == [] then [] else chains[0] + Flat(chains[1..])
  }

  lemma {:induction false} FlatSplit<K, V>(chains: seq<seq<Entry<K, V>>>, i: nat)
    requires i < |chains|
    ensures Flat(chains) == Flat(chains[..i]) + chains[i] + Flat(chains[i + 1..])
  {
    if i > 0 {
      FlatSplit(chains[1..], i - 1);
      assert chains[1..][..i - 1] == chains[..i][1..];
      assert chains[1..][i..] == chains[i + 1..];
    }
  }

  lemma {:induction false} FlatMembers<K, V>(chains: seq<seq<Entry<K, V>>>)
    ensures Members(Flat(chains)) == Nodes(chains)
  {
    if chains != [] {
      FlatMembers(chains[1..]);
      forall x ensures x in Nodes(chains) <==> x in chains[0] || x in Nodes(chains[1..]) {
        if x in Nodes(chains) {
          var i :| 0 <= i < |chains| && x in chains[i];
          if i > 0 { assert x in chains[1..][i - 1]; }
        }
        if x in Nodes(chains[1..]) {
          var i :| 0 <= i < |chains[1..]| && x in chains[1..][i];
          assert x in chains[i + 1];
        }
      }
      forall x ensures x in Members(Flat(chains)) <==> x in chains[0] || x in Members(Flat(chains[1..])) {}
    }
  }

  lemma ConcatDistinct<K, V>(a: seq<Entry<K, V>>, b: seq<Entry<K, V>>)
    requires Distinct(a) && Distinct(b) && forall x | x in a :: x !in b
    ensures Distinct(a + b)
  {
    forall i, j | 0 <= i < j < |a + b| ensures (a + b)[i] != (a + b)[j] {
      if i < |a| <= j { assert a[i] in a && b[j - |a|] in b; }
    }
  }

  lemma {:induction false} FlatDistinct<K, V>(chains: seq<seq<Entry<K, V>>>)
    requires forall i | 0 <= i < |chains| :: Distinct(chains[i])
    requires forall i, j | 0 <= i < j < |chains| :: Members(chains[i]) !! Members(chains[j])
    ensures Distinct(Flat(chains))
  {
    if chains != [] {
      var rest := chains[1..];
      FlatDistinct(rest);
      FlatMembers(rest);
      forall x | x in Flat(rest) ensures x !in chains[0] {
        assert x in Members(Flat(rest));
        var i :| 0 <= i < |rest| && x in rest[i];
        assert x in Members(chains[i + 1]);
      }
      ConcatDistinct(chains[0], Flat(rest));
    }
  }

  /** The first entry from bucket j on is at the head of the first bucket that is not empty. */
  lemma FlatFirst<K, V>(chains: seq<seq<Entry<K, V>>>, j: nat)
    requires j <= |chains|
    ensures First(Flat(chains[j..])) == if j == |chains| then null
                                        else if chains[j] != [] then First(chains[j])
                                        else First(Flat(chains[j + 1..]))
  {
    if j < |chains| { assert chains[j..][1..] == chains[j + 1..]; }
  }

  /** What follows chains[i][k] in the order: its chain successor, or else the next bucket. */
  lemma FlatNext<K, V>(chains: seq<seq<Entry<K, V>>>, i: nat, k: nat, t: nat)
    requires i < |chains| && k < |chains[i]| && t < |Flat(chains)|
    requires Distinct(Flat(chains)) && Flat(chains)[t] == chains[i][k]
    ensures Succ(Flat(chains), t) == if k + 1 < |chains[i]| then chains[i][k + 1] else First(Flat(chains[i + 1..]))
  {
    hide Flat;
    FlatSplit(chains, i);
    var a, b, c := Flat(chains[..i]), chains[i], Flat(chains[i + 1..]);
    assert (a + b + c)[|a| + k] == b[k];
    assert t == |a| + k;
    if k + 1 == |b| && c != [] { assert (a + b + c)[t + 1] == c[0]; }
  }

  // ---------------------------------------------------------------- the table

  lemma MapAdded<A, B>(m: map<A, B>, a: A, b: B)
    requires a !in m
    ensures m[a := b].Values == m.Values + {b} && |m[a := b]| == |m| + 1
  {
    forall x | x in m.Values + {b} ensures x in m[a := b].Values {
      if x in m.Values {
        var c :| c in m && m[c] == x;
        assert m[a := b][c] == x;
      } else {
        assert m[a := b][a] == x;
      }
    }
  }

  lemma MapRemoved<A, B>(m: map<A, B>, a: A)
    requires a in m && forall c | c in m && c != a :: m[c] != m[a]
    ensures (m - {a}).Values == m.Values - {m[a]} && |m - {a}| == |m| - 1
  {
    var after := m - {a};
    assert after.Keys == m.Keys - {a};
    forall x | x in m.Values - {m[a]} ensures x in after.Values {
      var c :| c in m && m[c] == x;
      assert after[c] == x;
    }
  }

  /** nelem > tab_size * 1.3 */
  predicate Crowded(nelem: nat, size: nat)
    ensures Crowded(nelem, size) <==> 10 * nelem > 13 * size
  {
    nelem as real > size as real * 1.3
  }

  /** Equality of keys is equality of what they name, and equal keys hash equally. */
  ghost predicate Lawful<K(!new), C>(hash: K -> nat, equal: (K, K) -> bool, name: K -> C) {
    && (forall a, b :: equal(a, b) <==> name(a) == name(b))
    && (forall a, b | name(a) == name(b) :: hash(a) == hash(b))
  }

  class HashTable<K(!new), V, C> {
    var nelem: nat
    var tab: array<Entry?<K, V>>
    const hash: K -> nat
    const equal: (K, K) -> bool
    ghost const name: K -> C
    ghost var chains: seq<seq<Entry<K, V>>>
    ghost var index: map<C, Entry<K, V>>

    /** Each key name is indexed with the entry that holds such a key. */
    ghost predicate Indexed(index: map<C, Entry<K, V>>)
      reads index.Values`key, index.Values`hashKey
    {
      forall c | c in index :: name(index[c].key) == c && index[c].hashKey == hash(index[c].key)
    }

    ghost predicate Valid()
      reads this, tab, Nodes(chains), index.Values
    {
      && Lawful(hash, equal, name)
      && Laid(tab[..], chains)
      && Nodes(chains) == index.Values && Indexed(index)
      && nelem == |index|
      && 10 * nelem <= 13 * tab.Length + 10
    }

    /** The abstract value: what each key name is bound to. */
    ghost function Contents(): map<C, (K, V)>
      reads this`index, index.Values`key, index.Values`value
      ensures Contents().Keys == index.Keys
    {
      Bindings(index)
    }

    ghost function Bindings(index: map<C, Entry<K, V>>): map<C, (K, V)>
      reads index.Values`key, index.Values`value
    {
      map c | c in index :: (index[c].key, index[c].value)
    }

    lemma Added(index: map<C, Entry<K, V>>, p: Entry<K, V>)
      requires Indexed(index) && p.hashKey == hash(p.key) && name(p.key) !in index
      ensures var after := index[name(p.key) := p];
              && Indexed(after) && after.Values == index.Values + {p} && |after| == |index| + 1
              && Bindings(after) == Bindings(index)[name(p.key) := (p.key, p.value)]
    {
      hide Bindings;
      MapAdded(index, name(p.key), p);
      AddedBinding(index, p);
    }

    lemma AddedBinding(index: map<C, Entry<K, V>>, p: Entry<K, V>)
      requires name(p.key) !in index
      ensures Bindings(index[name(p.key) := p]) == Bindings(index)[name(p.key) := (p.key, p.value)]
    {}

    lemma Removed(index: map<C, Entry<K, V>>, c: C)
      requires Indexed(index) && c in index
      ensures var after := index - {c};
              && Indexed(after) && after.Values == index.Values - {index[c]} && |after| == |index| - 1
              && Bindings(after) == Bindings(index) - {c}
    {
      MapRemoved(index, c);
    }

    /** Replaces the pair of an entry by one with an equal key. */
    method Rebind(p: Entry<K, V>, key: K, value: V)
      requires Lawful(hash, equal, name) && Indexed(index) && name(key) in index && index[name(key)] == p
      modifies p`key, p`value
      ensures Indexed(index)
      ensures Bindings(index) == old(Bindings(index))[name(key) := (key, value)]
    {
      p.key := key;
      p.value := value;
      assert index == old(index);
    }

    constructor (size: nat, hash: K -> nat, equal: (K, K) -> bool, ghost name: K -> C)
      requires size > 0 && Lawful(hash, equal, name)
      ensures Valid() && Contents() == map[] && tab.Length == size && fresh(tab)
      ensures this.hash == hash && this.equal == equal && this.name == name
    {
      this.hash, this.equal, this.name := hash, equal, name;
      var t := new Entry?<K, V>[size](_ => null);
      tab, nelem := t, 0;
      chains := seq(size, _ => []);
      index := map[];
      new;
      EmptyLaid(tab[..], chains);
    }

    /** zc_hashtable_get_entry */
    method GetEntry(key: K) returns (p: Entry?<K, V>)
      requires Valid()
      ensures p == if name(key) in index then index[name(key)] else null
    {
      var i := hash(key) % tab.Length;
      ghost var s := chains[i];
      LaidParts(tab[..], chains);
      assert tab[..][i] == tab[i];
      p := tab[i];
      ghost var k := 0;
      while p != null
        invariant 0 <= k <= |s| && p == if k < |s| then s[k] else null
        invariant forall j | 0 <= j < k :: name(s[j].key) != name(key)
        decreases |s| - k
      {
        if equal(key, p.key) {
          assert p in Nodes(chains);
          return;
        }
        p := p.next;
        k := k + 1;
      }
      if name(key) in index { ghost var e := index[name(key)]; InItsBucket(e); }
    }

    lemma InItsBucket(e: Entry<K, V>)
      requires Valid() && e in Nodes(chains)
      ensures hash(e.key) == e.hashKey && e in chains[e.hashKey % |chains|]
    {
    }

    /** zc_hashtable_get */
    method Get(key: K) returns (r: Option<V>)
      requires Valid()
      ensures r == if name(key) in Contents() then Some(Contents()[name(key)].1) else None
    {
      var p := GetEntry(key);
      r := if p == null then None else Some(p.value);
    }

    lemma Parts()
      requires Valid()
      ensures Lawful(hash, equal, name) && Laid(tab[..], chains) && Nodes(chains) == index.Values && Indexed(index)
      ensures |chains| == tab.Length > 0
      ensures nelem == |index| && 10 * nelem <= 13 * tab.Length + 10
      ensures Contents() == Bindings(index)
    {
      hide Nodes, Indexed, Bindings, Lawful, First, Linked;
    }

    /** Installs a bucket array that holds exactly the indexed entries. */
    method Adopt(tab: array<Entry?<K, V>>, nelem: nat, ghost chains: seq<seq<Entry<K, V>>>,
                 ghost index: map<C, Entry<K, V>>)
      requires Lawful(hash, equal, name) && Laid(tab[..], chains) && Nodes(chains) == index.Values && Indexed(index)
      requires nelem == |index| && 10 * nelem <= 13 * tab.Length + 10
      modifies this
      ensures Valid() && this.tab == tab && this.nelem == nelem && this.chains == chains && this.index == index
      ensures Contents() == old(Bindings(index))
    {
      hide Laid, Nodes, Indexed, Lawful;
      this.tab, this.nelem, this.chains, this.index := tab, nelem, chains, index;
    }

    /** zc_hashtable_rehash: no binding changes. */
    method Widen()
      requires Valid()
      modifies this, Nodes(chains)`next, Nodes(chains)`prev
      ensures Valid() && index == old(index) && Contents() == old(Contents()) && nelem == old(nelem)
      ensures fresh(tab) && tab.Length == 2 * old(tab.Length)
    {
      hide Laid, Nodes, Indexed, Bindings, Lawful, First, Members, Valid, Contents;
      Parts();
      var t;
      ghost var cs;
      t, cs := Rehash(tab, chains);
      Adopt(t, nelem, cs, index);
    }

    /** The end of zc_hashtable_put: a new entry goes to the head of its bucket. */
    method Enter(p: Entry<K, V>)
      requires Valid() && p.hashKey == hash(p.key) && name(p.key) !in index && p !in Nodes(chains)
      requires 10 * nelem <= 13 * tab.Length
      modifies this, tab, Nodes(chains)`prev, p`next, p`prev
      ensures Valid() && Contents() == old(Contents())[name(p.key) := (p.key, p.value)]
      ensures Nodes(chains) == old(Nodes(chains)) + {p} && tab == old(tab)
    {
      hide Laid, Nodes, Indexed, Bindings, Lawful, First, Members, Valid, Contents;
      Parts();
      ghost var wider := index[name(p.key) := p];
      Added(index, p);
      ghost var bound := Bindings(wider);
      ghost var cs := Push(tab, p, chains);
      assert Bindings(wider) == bound && Indexed(wider);
      Adopt(tab, nelem + 1, cs, wider);
    }

    method NewEntry(key: K, value: V) returns (p: Entry<K, V>)
      requires Valid()
      ensures fresh(p) && p.hashKey == hash(key) && p.key == key && p.value == value && p !in Nodes(chains)
      ensures Valid() && Contents() == old(Contents())
    {
      hide Laid, Nodes, Indexed, Bindings, Lawful, Contents;
      p := new Entry(hash(key), key, value);
      assert p !in index.Values;
    }

    /** zc_hashtable_put: the key is bound to the value, whatever it was bound to before. */
    method Put(key: K, value: V)
      requires Valid()
      modifies this, tab, Nodes(chains)
      ensures Valid() && Contents() == old(Contents())[name(key) := (key, value)]
      ensures fresh(Nodes(chains) - old(Nodes(chains))) && (tab == old(tab) || fresh(tab))
      ensures tab.Length == if name(key) !in old(Contents()) && 10 * old(nelem) > 13 * old(tab.Length)
                            then 2 * old(tab.Length) else old(tab.Length)
    {
      hide Laid, Nodes, Indexed, Bindings, Lawful, First, Members;
      Parts();
      var p := GetEntry(key);
      if p != null {
        Rebind(p, key, value);
      } else {
        if Crowded(nelem, tab.Length) { Widen(); }
        p := NewEntry(key, value);
        Enter(p);
      }
    }

    /** The end of zc_hashtable_remove: the entry of a key leaves the table. */
    method Leave(p: Entry<K, V>)
      requires Valid() && name(p.key) in index && index[name(p.key)] == p
      modifies this, tab, Nodes(chains)`next, Nodes(chains)`prev
      ensures Valid() && Contents() == old(Contents()) - {name(p.key)}
      ensures Nodes(chains) == old(Nodes(chains)) - {p} && tab == old(tab)
    {
      hide Laid, Nodes, Indexed, Bindings, Lawful, First, Members, Valid, Contents;
      Parts();
      ghost var less := index - {name(p.key)};
      Removed(index, name(p.key));
      ghost var bound := Bindings(less);
      ghost var cs := Drop(tab, p, chains);
      assert Bindings(less) == bound && Indexed(less);
      Adopt(tab, nelem - 1, cs, less);
    }

    /** zc_hashtable_remove: the key is unbound; an absent key changes nothing. */
    method Remove(key: K)
      requires Valid()
      modifies this, tab, Nodes(chains)
      ensures Valid() && Contents() == old(Contents()) - {name(key)}
      ensures Nodes(chains) <= old(Nodes(chains)) && tab == old(tab)
    {
      hide Laid, Nodes, Bindings, Lawful, First, Members;
      var p := GetEntry(key);
      if p != null { Leave(p); }
    }

    /** zc_hashtable_clean: nothing is bound any more. */
    method Clean()
      requires Valid()
      modifies this, tab
      ensures Valid() && Contents() == map[] && tab == old(tab) && Nodes(chains) == {}
    {
      hide Laid, Nodes, Indexed, Bindings;
      LaidSize(tab[..], chains);
      for i := 0 to tab.Length
        invariant tab == old(tab) && tab.Length > 0
        invariant forall j | 0 <= j < i :: tab[j] == null
        invariant Lawful(hash, equal, name)
      {
        tab[i] := null;
      }
      nelem := 0;
      chains := seq(tab.Length, _ => []);
      index := map[];
      EmptyLaid(tab[..], chains);
      Nothing();
    }

    lemma Nothing()
      ensures Indexed(map[]) && Bindings(map[]) == map[]
    {}

    lemma Size()
      requires Valid()
      ensures nelem == |Contents()|
    {
      assert Contents().Keys == index.Keys;
    }

    /** The order in which begin and next walk through the entries. */
    ghost function Order(): seq<Entry<K, V>>
      reads this`chains
    {
      Flat(chains)
    }

    /** Each entry is in the order once, and there are nelem of them. */
    lemma OrderIsComplete()
      requires Valid()
      ensures Distinct(Order()) && Members(Order()) == index.Values && |Order()| == nelem
    {
      hide Laid, Nodes, Distinct, Flat, Forward, First;
      LaidParts(tab[..], chains);
      FlatDistinct(chains);
      FlatMembers(chains);
      Injective(index);
      DistinctSize(Order());
    }

    lemma Injective(index: map<C, Entry<K, V>>)
      requires Indexed(index)
      ensures |index.Values| == |index|
      decreases |index|
    {
      if index != map[] {
        var c :| c in index;
        Removed(index, c);
        Injective(index - {c});
        assert index.Values == (index - {c}).Values + {index[c]};
      }
    }

    /** zc_hashtable_begin */
    method Begin() returns (p: Entry?<K, V>)
      requires Valid()
      ensures p == First(Order())
    {
      p := Seek(0);
    }

    /** The first entry in the buckets from j on. */
    method Seek(from: nat) returns (p: Entry?<K, V>)
      requires Valid() && from <= tab.Length
      ensures p == First(Flat(chains[from..]))
    {
      hide Laid, Nodes, Flat, Indexed, Bindings, Lawful, Members;
      LaidParts(tab[..], chains);
      var j := from;
      while j < tab.Length
        invariant from <= j <= tab.Length
        invariant First(Flat(chains[from..])) == First(Flat(chains[j..]))
      {
        FlatFirst(chains, j);
        assert tab[..][j] == tab[j];
        if tab[j] != null { return tab[j]; }
        j := j + 1;
      }
      FlatFirst(chains, j);
      p := null;
    }

    /** zc_hashtable_next: from the t-th entry of the order to the one after it. */
    method Next(e: Entry<K, V>, ghost t: nat) returns (p: Entry?<K, V>)
      requires Valid() && t < |Order()| && Order()[t] == e
      ensures p == Succ(Order(), t)
    {
      hide Laid, Flat, Indexed, Bindings, Lawful, Forward, Distinct, First;
      OrderIsComplete();
      LaidParts(tab[..], chains);
      assert e in Members(Order());
      var i := e.hashKey % tab.Length;
      ghost var k := Position(tab[..], chains, e);
      FlatNext(chains, i, k, t);
      NextOf(tab[..], chains, i, k);
      if e.next != null { return e.next; }
      p := Seek(i + 1);
    }

    lemma NextOf(heads: seq<Entry?<K, V>>, chains: seq<seq<Entry<K, V>>>, i: nat, k: nat)
      requires Laid(heads, chains) && i < |chains| && k < |chains[i]|
      ensures chains[i][k].next == Succ(chains[i], k)
    {}

    /** zc_hashtable_foreach: every binding is visited once. */
    method ForEach() returns (visited: seq<Entry<K, V>>)
      requires Valid()
      ensures |visited| == nelem
      ensures forall i, j | 0 <= i < j < |visited| :: name(visited[i].key) != name(visited[j].key)
      ensures forall i | 0 <= i < |visited| ::
        name(visited[i].key) in Contents() && Contents()[name(visited[i].key)] == (visited[i].key, visited[i].value)
      ensures forall c | c in Contents() :: exists i | 0 <= i < |visited| :: name(visited[i].key) == c
    {
      visited := Walk();
      OrderIsComplete();
      hide Laid, Nodes, Flat, Lawful;
      forall i | 0 <= i < |visited|
        ensures name(visited[i].key) in index && index[name(visited[i].key)] == visited[i]
      {
        assert visited[i] in Members(Order());
      }
      forall c | c in Contents() ensures exists i | 0 <= i < |visited| :: name(visited[i].key) == c {
        assert index[c] in Members(Order());
      }
    }

    method Walk() returns (visited: seq<Entry<K, V>>)
      requires Valid()
      ensures visited == Order()
    {
      hide Laid, Nodes, Flat, Indexed, Bindings, Lawful;
      var p := Begin();
      visited := [];
      while p != null
        invariant |visited| <= |Order()| && visited == Order()[..|visited|]
        invariant p == if |visited| < |Order()| then Order()[|visited|] else null
        decreases |Order()| - |visited|
      {
        ghost var t := |visited|;
        visited := visited + [p];
        p := Next(p, t);
      }
    }
  }

  lemma {:induction false} DistinctSize<K, V>(s: seq<Entry<K, V>>)
    requires Distinct(s)
    ensures |Members(s)| == |s|
  {
    if s != [] {
      var t := s[1..];
      DistinctSize(t);
      assert s == [s[0]] + t;
      assert Members(s) == Members(t) + {s[0]};
      assert s[0] !in Members(t);
    }
  }

  // ---------------------------------------------------------------- runs

  datatype Op<K, V> = Put(key: K, value: V) | Get(key: K) | Remove(key: K) | Clean

  /** One operation of a plain map. */
  ghost function StepMap<K, V, C>(name: K -> C, m: map<C, (K, V)>, op: Op<K, V>): map<C, (K, V)> {
    match op
    case Put(key, value) => m[name(key) := (key, value)]
    case Get(_) => m
    case Remove(key) => m - {name(key)}
    case Clean => map[]
  }

  ghost function Answer<K, V, C>(name: K -> C, m: map<C, (K, V)>, op: Op<K, V>): Option<V> {
    if op.Get? && name(op.key) in m then Some(m[name(op.key)].1) else None
  }

  /** The map after a run. */
  ghost function After<K, V, C>(name: K -> C, m: map<C, (K, V)>, ops: seq<Op<K, V>>): map<C, (K, V)> {
    if ops == [] then m else StepMap(name, After(name, m, ops[..|ops| - 1]), ops[|ops| - 1])
  }

  /** The answers during a run. */
  ghost function Answers<K, V, C>(name: K -> C, m: map<C, (K, V)>, ops: seq<Op<K, V>>): seq<Option<V>> {
    if ops == [] then []
    else
      var before := ops[..|ops| - 1];
      Answers(name, m, before) + [Answer(name, After(name, m, before), ops[|ops| - 1])]
  }

  lemma OneMore<K, V, C>(name: K -> C, m: map<C, (K, V)>, ops: seq<Op<K, V>>, i: nat)
    requires i < |ops|
    ensures After(name, m, ops[..i + 1]) == StepMap(name, After(name, m, ops[..i]), ops[i])
    ensures Answers(name, m, ops[..i + 1])
            == Answers(name, m, ops[..i]) + [Answer(name, After(name, m, ops[..i]), ops[i])]
  {
    assert ops[..i + 1][..i] == ops[..i];
  }

  /** Any run of operations, through any number of rehashes, answers as the plain map does. */
  method Run<K(!new), V, C>(t: HashTable<K, V, C>, ops: seq<Op<K, V>>) returns (answers: seq<Option<V>>)
    requires t.Valid()
    modifies t, t.tab, Nodes(t.chains)
    ensures t.Valid() && t.Contents() == After(t.name, old(t.Contents()), ops)
    ensures t.nelem == |After(t.name, old(t.Contents()), ops)|
    ensures answers == Answers(t.name, old(t.Contents()), ops)
  {
    hide Laid, After, Answer, Answers, StepMap, HashTable.Valid, HashTable.Contents;
    answers := [];
    ghost var m := t.Contents();
    Start(t.name, m, ops);
    for i := 0 to |ops|
      invariant t.Valid() && t.Contents() == After(t.name, m, ops[..i])
      invariant fresh(Nodes(t.chains) - old(Nodes(t.chains))) && (t.tab == old(t.tab) || fresh(t.tab))
      invariant answers == Answers(t.name, m, ops[..i])
    {
      OneMore(t.name, m, ops, i);
      ghost var before := Nodes(t.chains);
      var answer := Perform(t, ops[i]);
      assert Nodes(t.chains) - old(Nodes(t.chains)) <= (before - old(Nodes(t.chains))) + (Nodes(t.chains) - before);
      answers := answers + [answer];
    }
    assert ops[..|ops|] == ops;
    t.Size();
  }

  lemma Start<K, V, C>(name: K -> C, m: map<C, (K, V)>, ops: seq<Op<K, V>>)
    ensures After(name, m, ops[..0]) == m && Answers(name, m, ops[..0]) == []
  {}

  method Perform<K(!new), V, C>(t: HashTable<K, V, C>, op: Op<K, V>) returns (answer: Option<V>)
    requires t.Valid()
    modifies t, t.tab, Nodes(t.chains)
    ensures t.Valid() && t.Contents() == StepMap(t.name, old(t.Contents()), op)
    ensures answer == Answer(t.name, old(t.Contents()), op)
    ensures fresh(Nodes(t.chains) - old(Nodes(t.chains))) && (t.tab == old(t.tab) || fresh(t.tab))
  {
    hide Laid, Nodes, Lawful;
    answer := None;
    match op
    case Put(key, value) => t.Put(key, value);
    case Get(key) => answer := t.Get(key);
    case Remove(key) => t.Remove(key);
    case Clean => t.Clean();
  }
}
