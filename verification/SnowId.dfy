/** The snowid generator: 128-bit ids from time, worker and a sequence number. */
module SnowId {
  import opened Bytes
  import opened Options

  type u64 = x: int | 0 <= x < 0x1_0000_0000_0000_0000

  datatype Id = Id(timestamp: u64, worker: u64, sequence: word)

  // ---------------------------------------------------------------- issuing, as a specification

  datatype State = State(enabled: bool, checkpoint: u64, worker: u64, sequence: word)

  /** One call; the reading is None when the clock cannot be read. */
  function Next(s: State, reading: Option<u64>): State {
    if !s.enabled || reading == None then s
    else if s.checkpoint > reading.value then s.(enabled := false)
    else s.(checkpoint := reading.value,
            sequence := if s.checkpoint == reading.value then (s.sequence + 1) % 0x1_0000 else 0)
  }

  function Issue(s: State, reading: Option<u64>): Option<Id> {
    if !s.enabled || reading == None || s.checkpoint > reading.value then None
    else var n := Next(s, reading); Some(Id(n.checkpoint, n.worker, n.sequence))
  }

  /** The ids of a run of calls, in order. */
  function Issued(s: State, readings: seq<Option<u64>>): seq<Id>
    decreases |readings|
  {
    if readings == [] then []
    else
      var rest := Issued(Next(s, readings[0]), readings[1..]);
      var id := Issue(s, readings[0]);
      if id == None then rest else [id.value] + rest
  }

  predicate Later(a: Id, b: Id) {
    a.timestamp < b.timestamp || (a.timestamp == b.timestamp && a.sequence < b.sequence)
  }

  predicate Increasing(ids: seq<Id>) {
    forall i, j | 0 <= i < j < |ids| :: Later(ids[i], ids[j])
  }

  /** The id the state stands at. */
  function Current(s: State): Id {
    Id(s.checkpoint, s.worker, s.sequence)
  }

  /** The sequence number is used up within the current millisecond. */
  predicate Exhausted(s: State, reading: Option<u64>) {
    s.enabled && reading == Some(s.checkpoint) && s.sequence == 0xFFFF
  }

  predicate Wraps(s: State, readings: seq<Option<u64>>)
    decreases |readings|
  {
    readings != [] && (Exhausted(s, readings[0]) || Wraps(Next(s, readings[0]), readings[1..]))
  }

  /** One call issues a later id than the last exactly when the sequence is not used up. */
  lemma StepIsLater(s: State, reading: Option<u64>)
    ensures Issue(s, reading).Some? ==>
      (Later(Current(s), Issue(s, reading).value) <==> !Exhausted(s, reading))
  {}

  /** Over any run, with any clock, the ids strictly increase exactly when the sequence number
      never wraps within a millisecond. */
  lemma {:induction false} RunIncreasesIffNoWrap(s: State, readings: seq<Option<u64>>)
    ensures Increasing([Current(s)] + Issued(s, readings)) <==> !Wraps(s, readings)
    decreases |readings|
  {
    hide Later;
    if readings != [] {
      var n, rest := Next(s, readings[0]), readings[1..];
      RunIncreasesIffNoWrap(n, rest);
      StepIsLater(s, readings[0]);
      if Issue(s, readings[0]) == None {
        assert Current(n) == Current(s);
      } else {
        assert Issued(s, readings) == [Current(n)] + Issued(n, rest);
        IncreasingCons(Current(s), Current(n), Issued(n, rest));
      }
    }
  }

  lemma IncreasingCons(a: Id, b: Id, rest: seq<Id>)
    ensures Increasing([a] + ([b] + rest)) <==> Later(a, b) && Increasing([b] + rest)
  {
    var s, t := [a] + ([b] + rest), [b] + rest;
    if Increasing(s) {
      assert Later(s[0], s[1]);
      forall i, j | 0 <= i < j < |t| ensures Later(t[i], t[j]) { assert Later(s[i + 1], s[j + 1]); }
    }
    if Later(a, b) && Increasing(t) {
      forall i, j | 0 <= i < j < |s| ensures Later(s[i], s[j]) {
        if i > 0 { assert Later(t[i - 1], t[j - 1]); } else if j > 1 { assert Later(t[0], t[j - 1]); }
      }
    }
  }

  function Count(readings: seq<Option<u64>>, t: u64): nat {
    if readings == [] then 0 else (if readings[0] == Some(t) then 1 else 0) + Count(readings[1..], t)
  }

  /** The readings before the clock first steps back behind `checkpoint` or an earlier reading. */
  function BeforeStepBack(checkpoint: u64, readings: seq<Option<u64>>): seq<Option<u64>>
    decreases |readings|
  {
    if readings == [] then []
    else if readings[0] == None then [None] + BeforeStepBack(checkpoint, readings[1..])
    else if readings[0].value < checkpoint then []
    else [readings[0]] + BeforeStepBack(readings[0].value, readings[1..])
  }

  lemma {:induction false} NoneBelow(checkpoint: u64, readings: seq<Option<u64>>, t: u64)
    requires t < checkpoint
    ensures Count(BeforeStepBack(checkpoint, readings), t) == 0
    decreases |readings|
  {
    if readings != [] {
      var rest := readings[1..];
      if readings[0] == None {
        NoneBelow(checkpoint, rest, t);
        CountCons(None, BeforeStepBack(checkpoint, rest), t);
      } else if readings[0].value >= checkpoint {
        NoneBelow(readings[0].value, rest, t);
        CountCons(readings[0], BeforeStepBack(readings[0].value, rest), t);
      }
    }
  }

  lemma CountCons(r: Option<u64>, readings: seq<Option<u64>>, t: u64)
    ensures Count([r] + readings, t) == (if r == Some(t) then 1 else 0) + Count(readings, t)
  {
    assert ([r] + readings)[1..] == readings;
  }

  /** The sequence number of the last id of millisecond t, if the readings before a step back
      are all served: -1 when there is none. */
  function LastSequence(s: State, readings: seq<Option<u64>>, t: u64): int {
    Count(BeforeStepBack(s.checkpoint, readings), t) + (if t == s.checkpoint then s.sequence else -1)
  }

  /** One reading does not change where the sequence numbers end, except that the millisecond
      left behind is not looked at any more. */
  lemma LastSequenceNext(s: State, readings: seq<Option<u64>>, t: u64)
    requires s.enabled && readings != [] && !Exhausted(s, readings[0])
    requires readings[0] == None || readings[0].value >= s.checkpoint
    ensures var n, rest := Next(s, readings[0]), readings[1..];
            LastSequence(n, rest, t) == LastSequence(s, readings, t)
            || (LastSequence(n, rest, t) == -1 && LastSequence(s, readings, t) < 0x1_0000)
  {
    var rest := readings[1..];
    if readings[0] == None {
      CountCons(None, BeforeStepBack(s.checkpoint, rest), t);
    } else {
      var now := readings[0].value;
      CountCons(readings[0], BeforeStepBack(now, rest), t);
      if t < now { NoneBelow(now, rest, t); }
    }
  }

  /** The sequence number wraps exactly when some millisecond gets more ids than 16 bits can
      number: 65536 in a fresh one, fewer in the one the generator stands in. Readings behind the
      first step back do not count. */
  lemma {:induction false} WrapsIffTooMany(s: State, readings: seq<Option<u64>>)
    requires s.enabled
    ensures Wraps(s, readings) <==> exists t :: LastSequence(s, readings, t) >= 0x1_0000
    decreases |readings|
  {
    hide LastSequence;
    if readings == [] || (readings[0].Some? && readings[0].value < s.checkpoint) {
      NothingServed(s, readings);
    } else if Exhausted(s, readings[0]) {
      ExhaustedCounts(s, readings);
    } else {
      var n, rest := Next(s, readings[0]), readings[1..];
      WrapsIffTooMany(n, rest);
      forall t ensures LastSequence(n, rest, t) >= 0x1_0000 <==> LastSequence(s, readings, t) >= 0x1_0000 {
        LastSequenceNext(s, readings, t);
      }
    }
  }

  lemma {:induction false} CountSame(t: u64, n: nat)
    ensures Count(seq(n, _ => Some(t)), t) == n && BeforeStepBack(t, seq(n, _ => Some(t))) == seq(n, _ => Some(t))
  {
    var all := seq(n, _ => Some(t));
    if n > 0 {
      CountSame(t, n - 1);
      assert all[1..] == seq(n - 1, _ => Some(t)) && all == [Some(t)] + all[1..];
    }
  }

  lemma {:induction false} CountOther(t: u64, n: nat, other: u64)
    requires other != t
    ensures Count(seq(n, _ => Some(t)), other) == 0
  {
    if n > 0 {
      CountOther(t, n - 1, other);
      assert seq(n, _ => Some(t))[1..] == seq(n - 1, _ => Some(t));
    }
  }

  /** A clock that stands still: after sequence number q the wrap comes with the 65536 - q th call. */
  lemma StandingClockWraps(s: State, n: nat)
    requires s.enabled
    ensures Wraps(s, seq(n, _ => Some(s.checkpoint))) <==> s.sequence + n >= 0x1_0000
  {
    hide Count, BeforeStepBack;
    var readings := seq(n, _ => Some(s.checkpoint));
    WrapsIffTooMany(s, readings);
    CountSame(s.checkpoint, n);
    assert LastSequence(s, readings, s.checkpoint) == n + s.sequence;
    forall t | t != s.checkpoint ensures LastSequence(s, readings, t) == -1 { CountOther(s.checkpoint, n, t); }
  }

  lemma NothingServed(s: State, readings: seq<Option<u64>>)
    requires s.enabled && (readings == [] || (readings[0].Some? && readings[0].value < s.checkpoint))
    ensures !Wraps(s, readings) && forall t :: LastSequence(s, readings, t) < 0x1_0000
  {
    if readings != [] { DisabledIsSilent(Next(s, readings[0]), readings[1..]); }
  }

  lemma ExhaustedCounts(s: State, readings: seq<Option<u64>>)
    requires readings != [] && Exhausted(s, readings[0])
    ensures LastSequence(s, readings, s.checkpoint) >= 0x1_0000
  {
    CountCons(readings[0], BeforeStepBack(s.checkpoint, readings[1..]), s.checkpoint);
  }

  /** A generator that is disabled stays so and issues nothing. */
  lemma {:induction false} DisabledIsSilent(s: State, readings: seq<Option<u64>>)
    requires !s.enabled
    ensures Issued(s, readings) == [] && !Wraps(s, readings)
  {
    if readings != [] { DisabledIsSilent(s, readings[1..]); }
  }

  /** After a backward step of the clock nothing is issued, whatever the clock says later. */
  lemma NothingAfterBackwardStep(s: State, t: u64, readings: seq<Option<u64>>)
    requires t < s.checkpoint
    ensures Issued(s, [Some(t)] + readings) == []
  {
    var all := [Some(t)] + readings;
    assert all[1..] == readings;
    DisabledIsSilent(Next(s, Some(t)), readings);
  }

  // ---------------------------------------------------------------- the binary form

  function Pow256(k: nat): nat {
    if k == 0 then 1 else 256 * Pow256(k - 1)
  }

  /** n >> (8 * i) */
  function ShiftRight(n: nat, i: nat): nat {
    if i == 0 then n else ShiftRight(n / 256, i - 1)
  }

  /** The k low bytes of n, most significant first. */
  function BigEndian(n: nat, k: nat): (s: seq<byte>)
    ensures |s| == k
  {
    if k == 0 then [] else BigEndian(n / 256, k - 1) + [n % 256]
  }

  lemma {:induction false} BigEndianFirst(n: nat, k: nat)
    requires k > 0
    ensures BigEndian(n, k) == [ShiftRight(n, k - 1) % 256] + BigEndian(n, k - 1)
  {
    if k > 1 { BigEndianFirst(n / 256, k - 1); }
  }

  /** memcmp on strings of the same length. */
  predicate Less(a: seq<byte>, b: seq<byte>)
    requires |a| == |b|
  {
    a != [] && (a[0] < b[0] || (a[0] == b[0] && Less(a[1..], b[1..])))
  }

  lemma {:induction false} LessConcat(a: seq<byte>, b: seq<byte>, x: seq<byte>, y: seq<byte>)
    requires |a| == |b| && |x| == |y|
    ensures Less(a + x, b + y) <==> Less(a, b) || (a == b && Less(x, y))
  {
    if a == [] {
      assert a + x == x && b + y == y;
    } else {
      LessConcat(a[1..], b[1..], x, y);
      assert (a + x)[1..] == a[1..] + x && (b + y)[1..] == b[1..] + y;
      assert a == b <==> a[0] == b[0] && a[1..] == b[1..] by {
        assert a == [a[0]] + a[1..] && b == [b[0]] + b[1..];
      }
    }
  }

  /** Big-endian bytes compare as the numbers do. */
  lemma {:induction false} BigEndianOrder(m: nat, n: nat, k: nat)
    requires m < Pow256(k) && n < Pow256(k)
    ensures Less(BigEndian(m, k), BigEndian(n, k)) <==> m < n
    ensures BigEndian(m, k) == BigEndian(n, k) <==> m == n
  {
    if k > 0 {
      var a, b := BigEndian(m / 256, k - 1), BigEndian(n / 256, k - 1);
      BigEndianOrder(m / 256, n / 256, k - 1);
      LessConcat(a, b, [m % 256], [n % 256]);
      assert (a + [m % 256])[..k - 1] == a && (b + [n % 256])[..k - 1] == b;
      assert (a + [m % 256])[k - 1] == m % 256 && (b + [n % 256])[k - 1] == n % 256;
    }
  }

  function Binary(id: Id): (s: seq<byte>)
    ensures |s| == 16
  {
    BigEndian(id.timestamp, 8) + BigEndian(id.worker, 6) + BigEndian(id.sequence, 2)
  }

  /** The order of ids: time, then worker, then sequence number. */
  predicate Before(a: Id, b: Id) {
    || a.timestamp < b.timestamp
    || (a.timestamp == b.timestamp && a.worker < b.worker)
    || (a.timestamp == b.timestamp && a.worker == b.worker && a.sequence < b.sequence)
  }

  lemma Powers()
    ensures Pow256(2) == 0x1_0000 && Pow256(6) == 0x1_0000_0000_0000 && Pow256(8) == 0x1_0000_0000_0000_0000
  {
    assert Pow256(3) == 0x100_0000;
  }

  /** What six bytes keep of the worker id. */
  function Reduced(id: Id): Id {
    id.(worker := id.worker % 0x1_0000_0000_0000)
  }

  /** The 16 bytes of two ids are equal exactly when the ids are, and compare as the ids do, up to
      what six bytes keep of the worker id. */
  lemma BinaryIsFaithful(a: Id, b: Id)
    ensures Binary(a) == Binary(b) <==> Reduced(a) == Reduced(b)
    ensures Less(Binary(a), Binary(b)) <==> Before(Reduced(a), Reduced(b))
  {
    hide BigEndian, Less;
    Powers();
    LowBytes(a.worker, 6);
    LowBytes(b.worker, 6);
    var v, w := Reduced(a).worker, Reduced(b).worker;
    BigEndianOrder(a.timestamp, b.timestamp, 8);
    BigEndianOrder(v, w, 6);
    BigEndianOrder(a.sequence, b.sequence, 2);
    var ta, wa, sa := BigEndian(a.timestamp, 8), BigEndian(v, 6), BigEndian(a.sequence, 2);
    var tb, wb, sb := BigEndian(b.timestamp, 8), BigEndian(w, 6), BigEndian(b.sequence, 2);
    LessConcat(ta + wa, tb + wb, sa, sb);
    LessConcat(ta, tb, wa, wb);
    Parts(ta, wa, sa, tb, wb, sb);
  }

  /** So ids are told apart by their bytes exactly when the worker ids do not differ by a multiple
      of 2^48 alone. */
  lemma BinaryCollides(a: Id, b: Id)
    requires a != b
    ensures Binary(a) == Binary(b) <==>
            && a.timestamp == b.timestamp && a.sequence == b.sequence
            && (a.worker - b.worker) % 0x1_0000_0000_0000 == 0
  {
    hide Binary;
    BinaryIsFaithful(a, b);
    SameRemainder(a.worker, b.worker);
  }

  /** Worker 0 and worker 2^48. */
  lemma WorkersCollide(t: u64, q: word)
    ensures Binary(Id(t, 0, q)) == Binary(Id(t, 0x1_0000_0000_0000, q))
  {
    BinaryCollides(Id(t, 0, q), Id(t, 0x1_0000_0000_0000, q));
  }

  /** Every id of a run bears the worker of its generator and a time the clock has shown. */
  lemma {:induction false} IssuedBearWorker(s: State, readings: seq<Option<u64>>)
    ensures forall id | id in Issued(s, readings) :: id.worker == s.worker && Some(id.timestamp) in readings
    decreases |readings|
  {
    if readings != [] { IssuedBearWorker(Next(s, readings[0]), readings[1..]); }
  }

  /** Runs of two generators share no binary form, whatever their clocks show, when their workers do
      not differ by a multiple of 2^48. */
  lemma WorkersKeepApart(s: State, r: State, readings: seq<Option<u64>>, others: seq<Option<u64>>)
    requires (s.worker - r.worker) % 0x1_0000_0000_0000 != 0
    ensures forall a, b | a in Issued(s, readings) && b in Issued(r, others) :: Binary(a) != Binary(b)
  {
    hide Binary;
    IssuedBearWorker(s, readings);
    IssuedBearWorker(r, others);
    forall a, b | a in Issued(s, readings) && b in Issued(r, others) ensures Binary(a) != Binary(b) {
      assert (a.worker - b.worker) % 0x1_0000_0000_0000 != 0;
      assert a != b;
      BinaryCollides(a, b);
    }
  }

  /** The binary forms of one run increase strictly as long as the sequence number does not wrap. */
  lemma RunIncreasesInBinary(s: State, readings: seq<Option<u64>>)
    requires !Wraps(s, readings)
    ensures var ids := Issued(s, readings);
            forall i, j | 0 <= i < j < |ids| :: Less(Binary(ids[i]), Binary(ids[j]))
  {
    hide Binary, Less, Issued;
    RunIncreasesIffNoWrap(s, readings);
    IssuedBearWorker(s, readings);
    var ids := Issued(s, readings);
    var all := [Current(s)] + ids;
    forall i, j | 0 <= i < j < |ids| ensures Less(Binary(ids[i]), Binary(ids[j])) {
      assert Later(all[i + 1], all[j + 1]);
      assert ids[i] in ids && ids[j] in ids;
      BinaryIsFaithful(ids[i], ids[j]);
    }
  }

  lemma SameRemainder(x: nat, y: nat)
    ensures x % 0x1_0000_0000_0000 == y % 0x1_0000_0000_0000 <==> (x - y) % 0x1_0000_0000_0000 == 0
  {}

  lemma Parts(a: seq<byte>, b: seq<byte>, c: seq<byte>, x: seq<byte>, y: seq<byte>, z: seq<byte>)
    requires |a| == |x| && |b| == |y| && |c| == |z|
    ensures a + b + c == x + y + z <==> a == x && b == y && c == z
    ensures a + b == x + y <==> a == x && b == y
  {
    var s, t := a + b + c, x + y + z;
    assert s[..|a|] == a && s[|a|..|a| + |b|] == b && s[|a| + |b|..] == c;
    assert t[..|a|] == x && t[|a|..|a| + |b|] == y && t[|a| + |b|..] == z;
    assert (a + b)[..|a|] == a && (a + b)[|a|..] == b && (x + y)[..|a|] == x && (x + y)[|a|..] == y;
  }

  lemma Pow256Positive(k: nat)
    ensures Pow256(k) > 0
  {}

  /** k bytes hold the number modulo 256^k. */
  lemma {:induction false} LowBytes(n: nat, k: nat)
    ensures Pow256(k) > 0 && BigEndian(n, k) == BigEndian(n % Pow256(k), k)
  {
    Pow256Positive(k);
    if k > 0 {
      var p, q := Pow256(k - 1), n / 256;
      LowBytes(q, k - 1);
      ModSplit(n, p);
    }
  }

  lemma ModSplit(n: nat, p: nat)
    requires p > 0
    ensures n % (256 * p) / 256 == n / 256 % p && n % (256 * p) % 256 == n % 256
  {
    var q, r := n / 256, n % 256;
    var c, d := q / p, q % p;
    DivMod(q, p);
    Distribute(p, c);
    assert n == (256 * p) * c + (256 * d + r);
    Remainder(256 * p, c, 256 * d + r);
  }

  lemma DivMod(q: nat, p: nat)
    requires p > 0
    ensures q == p * (q / p) + q % p && 0 <= q % p < p
  {}

  lemma Distribute(p: nat, c: nat)
    ensures 256 * (p * c) == (256 * p) * c
  {}

  lemma Remainder(m: nat, c: nat, r: nat)
    requires r < m
    ensures (m * c + r) % m == r
  {
    var x := m * c + r;
    var d := x / m;
    DivMod(x, m);
    if d > c { Times(m, c, d); }
    if d < c { Times(m, d, c); }
  }

  lemma {:induction false} Times(m: nat, a: nat, b: nat)
    requires a < b
    ensures m * a + m <= m * b
    decreases b
  {
    OneMore(m, b - 1);
    if a < b - 1 { Times(m, a, b - 1); }
  }

  lemma OneMore(m: nat, b: nat)
    ensures m * (b + 1) == m * b + m
  {}

  // ---------------------------------------------------------------- the generator

  class Generator {
    var enabled: bool
    var checkpoint: u64
    var worker: u64
    var sequence: word

    function View(): State
      reads this
    {
      State(enabled, checkpoint, worker, sequence)
    }

    /** snow_init: `saved` is the stored checkpoint, `now` the clock, `address` the network
        interface; each may be missing. */
    constructor (saved: Option<u64>, now: Option<u64>, downtime: u64, address: Option<u64>)
      ensures enabled <==>
        saved.Some? && now.Some? && address.Some? && saved.value <= now.value <= saved.value + downtime
      ensures enabled ==> checkpoint == now.value && sequence == 0 && worker == address.value
    {
      enabled, checkpoint, worker, sequence := false, 0, 0, 0;
      if saved.Some? && now.Some? && saved.value <= now.value && now.value - saved.value <= downtime {
        checkpoint, sequence := now.value, 0;
        if address.Some? { worker, enabled := address.value, true; }
      }
    }

    /** snow_get_id */
    method GetId(reading: Option<u64>) returns (id: Option<Id>)
      modifies this
      ensures id == Issue(old(View()), reading) && View() == Next(old(View()), reading)
      ensures worker == old(worker)
      ensures id.Some? <==> old(enabled) && reading.Some? && reading.value >= old(checkpoint)
      ensures id.Some? ==> id.value.worker == old(worker) && id.value.timestamp == reading.value
    {
      if !enabled || reading == None { return None; }
      var now := reading.value;
      if checkpoint > now {
        enabled := false;
        return None;
      }
      if checkpoint == now { sequence := (sequence + 1) % 0x1_0000; } else { sequence := 0; }
      checkpoint := now;
      id := Some(Id(checkpoint, worker, sequence));
    }

    /** A run of calls. */
    method GetIds(readings: seq<Option<u64>>) returns (ids: seq<Id>)
      modifies this
      ensures ids == Issued(old(View()), readings) && worker == old(worker)
      ensures forall id | id in ids :: id.worker == old(worker)
      ensures old(enabled) ==>
        (Increasing([Current(old(View()))] + ids) <==> forall t :: LastSequence(old(View()), readings, t) < 0x1_0000)
    {
      ghost var s := View();
      ids := [];
      for i := 0 to |readings|
        invariant worker == old(worker) && Issued(s, readings) == ids + Issued(View(), readings[i..])
      {
        assert readings[i..][1..] == readings[i + 1..];
        var id := GetId(readings[i]);
        if id.Some? { ids := ids + [id.value]; }
      }
      IssuedBearWorker(s, readings);
      RunIncreasesIffNoWrap(s, readings);
      if s.enabled { WrapsIffTooMany(s, readings); }
    }
  }

  /** get_snowid_to_binary: three loops from the most significant byte down. */
  method ToBinary(out: array<byte>, id: Id)
    requires out.Length == 16
    modifies out
    ensures out[..] == Binary(id)
  {
    hide BigEndian, ShiftRight;
    assert out[..0] == [];
    WriteBytes(out, 0, id.timestamp, 8);
    assert out[..8] == BigEndian(id.timestamp, 8);
    WriteBytes(out, 8, id.worker, 6);
    assert out[..14] == BigEndian(id.timestamp, 8) + BigEndian(id.worker, 6);
    WriteBytes(out, 14, id.sequence, 2);
    assert out[..16] == out[..];
  }

  /** One of the loops: i = k - 1 down to 0. */
  method WriteBytes(out: array<byte>, at: nat, n: nat, k: nat)
    requires at + k <= out.Length
    modifies out
    ensures out[..at + k] == old(out[..at]) + BigEndian(n, k)
  {
    hide BigEndian, ShiftRight;
    var idx, i := at, k;
    while i > 0
      invariant 0 <= i <= k && idx == at + k - i
      invariant out[..idx] + BigEndian(n, i) == old(out[..at]) + BigEndian(n, k)
    {
      BigEndianFirst(n, i);
      ghost var done := out[..idx];
      i := i - 1;
      out[idx] := ShiftRight(n, i) % 256;
      idx := idx + 1;
      assert out[..idx] == done + [ShiftRight(n, i) % 256];
    }
    NoBytes(n);
  }

  lemma NoBytes(n: nat)
    ensures BigEndian(n, 0) == []
  {}
}
