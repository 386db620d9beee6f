/** MQTT 3.1.1 as paho encodes and parses it: the variable length field and PUBLISH packets. */
module MqttPacket {
  import opened Bytes
  import opened Options

  const MAX_REMAINING: nat := 268_435_455

  // ---------------------------------------------------------------- remaining length

  /** Seven bits a byte, least significant first; the top bit says that more follow. */
  function Vbi(n: nat): (s: seq<byte>)
    ensures |s| >= 1
  {
    if n < 128 then [n] else [n % 128 + 128] + Vbi(n / 128)
  }

  /** MQTTPacket_VBIlen */
  function VbiLen(n: nat): nat {
    if n < 128 then 1
    else if n < 16384 then 2
    else if n < 2097152 then 3
    else 4
  }

  /** VBIlen is the length of the encoding exactly for the lengths that MQTT allows. */
  lemma VbiLenIsLength(n: nat)
    ensures |Vbi(n)| == VbiLen(n) <==> n <= 268_435_455
  {
    if n >= 128 {
      assert Vbi(n) == [n % 128 + 128] + Vbi(n / 128);
      var m := n / 128;
      if m >= 128 {
        assert Vbi(m) == [m % 128 + 128] + Vbi(m / 128);
        var k := m / 128;
        if k >= 128 {
          assert Vbi(k) == [k % 128 + 128] + Vbi(k / 128);
          if k / 128 >= 128 { assert |Vbi(k / 128)| >= 2; }
        }
      }
    }
  }

  /** MQTTPacket_encode. Without a buffer it only counts. */
  method Encode(buf: array?<byte>, at: nat, length: nat) returns (rc: nat)
    requires buf != null ==> at + |Vbi(length)| <= buf.Length
    modifies (if buf == null then {} else {buf})
    ensures rc == |Vbi(length)|
    ensures buf != null ==> buf[..] == Patched(old(buf[..]), at, Vbi(length))
  {
    hide Vbi, Patched;
    rc := 0;
    var n: nat := length;
    ghost var done: seq<byte> := [];
    ghost var before: seq<byte> := if buf == null then [] else buf[..];
    PatchedNone(before, at);
    var more := true;
    while more
      invariant rc == |done| <= |Vbi(length)| && Vbi(length) == done + (if more then Vbi(n) else [])
      invariant buf != null ==> buf.Length == |before| && buf[..] == Patched(before, at, done)
      decreases n, more
    {
      VbiStep(n, Vbi(length), done);
      var d: byte := n % 128;
      n := n / 128;
      if n > 0 { d := d + 128; }
      if buf != null { Put(buf, at + rc, d, before, at, done); }
      rc := rc + 1;
      done := done + [d];
      more := n > 0;
    }
    assert done + [] == done;
  }

  lemma VbiStep(n: nat, all: seq<byte>, done: seq<byte>)
    requires all == done + Vbi(n)
    ensures |done| < |all|
    ensures all == if n / 128 == 0 then done + [n % 128] + [] else done + [n % 128 + 128] + Vbi(n / 128)
    ensures n / 128 > 0 ==> n / 128 < n
  {
    hide Vbi;
    VbiUnfold(n);
    if n / 128 == 0 {
      assert done + [n % 128] + [] == done + [n % 128];
    } else {
      assert done + [n % 128 + 128] + Vbi(n / 128) == done + ([n % 128 + 128] + Vbi(n / 128));
    }
  }

  lemma VbiUnfold(n: nat)
    ensures |Vbi(n)| >= 1
    ensures n / 128 == 0 ==> Vbi(n) == [n % 128]
    ensures n / 128 > 0 ==> Vbi(n) == [n % 128 + 128] + Vbi(n / 128) && n / 128 < n
  {}

  lemma PatchedNone(before: seq<byte>, at: nat)
    ensures at <= |before| ==> Patched(before, at, []) == before
  {}

  /** `before` with `s` written over it from `at` on. */
  ghost function Patched(before: seq<byte>, at: nat, s: seq<byte>): seq<byte> {
    if at + |s| <= |before| then before[..at] + s + before[at + |s|..] else []
  }

  method Put(buf: array<byte>, k: nat, d: byte, ghost before: seq<byte>, ghost at: nat, ghost done: seq<byte>)
    requires k == at + |done| < |before| == buf.Length && buf[..] == Patched(before, at, done)
    modifies buf
    ensures buf[..] == Patched(before, at, done + [d])
  {
    buf[k] := d;
  }

  /** What a decoder makes of the bytes after `len` of them were read. */
  datatype Decoding = Decoding(value: nat, len: nat, ok: bool)

  function Decode(s: seq<byte>, value: nat, multiplier: nat, len: nat): Decoding
    requires len <= 4
    decreases 4 - len
  {
    if len == 4 then Decoding(value, 5, false)
    else if s == [] then Decoding(value, len + 1, false)
    else
      var v := value + s[0] % 128 * multiplier;
      if s[0] >= 128 then Decode(s[1..], v, multiplier * 128, len + 1) else Decoding(v, len + 1, true)
  }

  /** MQTTPacket_VBIdecode and MQTTPacket_decode over a source that may run dry. */
  method VbiDecode(source: seq<byte>) returns (value: nat, len: nat, ok: bool)
    ensures Decoding(value, len, ok) == Decode(source, 0, 1, 0)
  {
    hide Decode;
    var multiplier: nat := 1;
    var s := source;
    value, len, ok := 0, 0, false;
    while true
      invariant len <= 4
      invariant Decode(source, 0, 1, 0) == Decode(s, value, multiplier, len)
      decreases 4 - len
    {
      DecodeUnfold(s, value, multiplier, len);
      len := len + 1;
      if len > 4 { return; }
      if s == [] { return; }
      var c: int := s[0];
      s := s[1..];
      value := value + c % 128 * multiplier;
      multiplier := multiplier * 128;
      if c < 128 {
        ok := true;
        return;
      }
    }
  }

  lemma DecodeUnfold(s: seq<byte>, value: nat, multiplier: nat, len: nat)
    requires len <= 4
    ensures Decode(s, value, multiplier, len) ==
            if len == 4 then Decoding(value, 5, false)
            else if s == [] then Decoding(value, len + 1, false)
            else if s[0] >= 128 then Decode(s[1..], value + s[0] % 128 * multiplier, multiplier * 128, len + 1)
            else Decoding(value + s[0] % 128 * multiplier, len + 1, true)
  {}

  lemma {:induction false} DecodeStep(n: nat, rest: seq<byte>, value: nat, multiplier: nat, len: nat)
    requires len < 4
    ensures Decode(Vbi(n) + rest, value, multiplier, len) ==
            if n < 128 then Decoding(value + n * multiplier, len + 1, true)
            else Decode(Vbi(n / 128) + rest, value + n % 128 * multiplier, multiplier * 128, len + 1)
  {
    hide Vbi, Decode;
    var s := Vbi(n) + rest;
    VbiUnfold(n);
    DecodeUnfold(s, value, multiplier, len);
    if n >= 128 {
      assert s == [n % 128 + 128] + (Vbi(n / 128) + rest);
      assert s[1..] == Vbi(n / 128) + rest;
      assert (n % 128 + 128) % 128 == n % 128;
    }
  }

  /** Decoding an encoded length gives it back and takes exactly its bytes, whatever follows,
      exactly when the length is one MQTT allows. */
  lemma VbiRoundTrip(n: nat, rest: seq<byte>)
    ensures Decode(Vbi(n) + rest, 0, 1, 0) == Decoding(n, |Vbi(n)|, true) <==> n <= 268_435_455
    ensures n > 268_435_455 ==> !Decode(Vbi(n) + rest, 0, 1, 0).ok
  {
    hide Vbi, Decode;
    VbiLenIsLength(n);
    DecodeStep(n, rest, 0, 1, 0);
    var a := n / 128;
    DecodeStep(a, rest, n % 128, 128, 1);
    var b := a / 128;
    DecodeStep(b, rest, n % 128 + a % 128 * 128, 16384, 2);
    var c := b / 128;
    DecodeStep(c, rest, n % 128 + a % 128 * 128 + b % 128 * 16384, 2097152, 3);
    if n > MAX_REMAINING {
      var low := n % 128 + a % 128 * 128 + b % 128 * 16384 + c % 128 * 2097152;
      FifthByte(Vbi(c / 128) + rest, low, 268435456);
    }
  }

  lemma FifthByte(s: seq<byte>, value: nat, multiplier: nat)
    ensures Decode(s, value, multiplier, 4) == Decoding(value, 5, false)
  {}

  // ---------------------------------------------------------------- PUBLISH

  /** The caller's view of a publication; without QoS the message id is not sent. */
  datatype Publish = Publish(dup: bool, qos: nat, retain: bool, topic: seq<byte>, msgId: nat, payload: seq<byte>)

  predicate WellFormed(p: Publish) {
    p.qos < 4 && (p.qos == 0 ==> p.msgId == 0) && 0 !in p.topic
  }

  /** The bit fields of the Header union. */
  function HeaderByte(kind: nat, dup: bool, qos: nat, retain: bool): byte
    requires kind < 16 && qos < 4
  {
    16 * kind + (if dup then 8 else 0) + 2 * qos + (if retain then 1 else 0)
  }

  const PUBLISH: nat := 3

  /** writeInt: two bytes, the rest of the integer is lost. */
  function IntBytes(n: nat): (s: seq<byte>)
    ensures |s| == 2
  {
    [n / 256 % 256, n % 256]
  }

  /** readInt */
  function IntAt(data: seq<byte>, at: nat): nat
    requires at + 2 <= |data|
  {
    var high: int, low: int := data[at], data[at + 1];
    256 * high + low
  }

  lemma Split(n: nat)
    ensures n == 256 * (n / 256) + n % 256 && n % 256 < 256
  {}

  lemma Remainder(q: nat, r: nat)
    requires r < 65536
    ensures (65536 * q + r) % 65536 == r
  {}

  lemma TwoDigits(n: nat)
    ensures 256 * (n / 256 % 256) + n % 256 == n % 65536
  {
    var high, low := n / 256, n % 256;
    Split(n);
    Split(high);
    Remainder(high / 256, 256 * (high % 256) + low);
  }

  lemma IntReadsBack(n: nat, rest: seq<byte>)
    ensures IntAt(IntBytes(n) + rest, 0) == n % 65536
  {
    TwoDigits(n);
    var s := IntBytes(n) + rest;
    assert s[0] == n / 256 % 256 && s[1] == n % 256;
  }

  /** writeInt into a buffer: the position after the two bytes. */
  method WriteInt(buf: array<byte>, at: nat, n: nat) returns (next: nat)
    requires at + 2 <= buf.Length
    modifies buf
    ensures next == at + 2 && buf[..] == Patched(old(buf[..]), at, IntBytes(n))
  {
    buf[at] := n / 256 % 256;
    buf[at + 1] := n % 256;
    next := at + 2;
  }

  /** Everything after the fixed header. */
  function Body(p: Publish): seq<byte> {
    IntBytes(|p.topic|) + p.topic + (if p.qos > 0 then IntBytes(p.msgId) else []) + p.payload
  }

  /** The packet on the wire. */
  function Wire(p: Publish): seq<byte>
    requires p.qos < 4
  {
    [HeaderByte(PUBLISH, p.dup, p.qos, p.retain)] + Vbi(|Body(p)|) + Body(p)
  }

  /** MQTTPacket_send_publish and MQTTPacket_sends: the buffers in the order they are written. */
  method SendPublish(p: Publish) returns (wire: seq<byte>)
    requires p.qos < 4
    ensures wire == Wire(p)
  {
    hide Vbi, Wire;
    var topiclen := IntBuffer(|p.topic|);
    var bufs: seq<seq<byte>>;
    if p.qos > 0 {
      var msgid := IntBuffer(p.msgId);
      bufs := [topiclen, p.topic, msgid, p.payload];
    } else {
      bufs := [topiclen, p.topic, p.payload];
    }
    BodyIsJoin(p, bufs);
    wire := Sends(HeaderByte(PUBLISH, p.dup, p.qos, p.retain), bufs);
    WireParts(p);
  }

  method IntBuffer(n: nat) returns (s: seq<byte>)
    ensures s == IntBytes(n)
  {
    var buf := new byte[2];
    var _ := WriteInt(buf, 0, n);
    s := buf[..];
    assert s == Patched(s, 0, IntBytes(n));
  }

  lemma BodyIsJoin(p: Publish, bufs: seq<seq<byte>>)
    requires bufs == if p.qos > 0 then [IntBytes(|p.topic|), p.topic, IntBytes(p.msgId), p.payload]
                     else [IntBytes(|p.topic|), p.topic, p.payload]
    ensures Join(bufs) == Body(p)
  {
    if p.qos > 0 {
      assert bufs[..3][..2][..1] == [IntBytes(|p.topic|)];
      assert Join(bufs) == Join(bufs[..3]) + p.payload;
      assert bufs[..3][..2] == [IntBytes(|p.topic|), p.topic];
      assert Join(bufs[..3]) == Join(bufs[..3][..2]) + IntBytes(p.msgId);
      JoinTwo(IntBytes(|p.topic|), p.topic);
    } else {
      assert bufs[..2] == [IntBytes(|p.topic|), p.topic];
      assert Join(bufs) == Join(bufs[..2]) + p.payload;
      JoinTwo(IntBytes(|p.topic|), p.topic);
    }
  }

  lemma JoinTwo(a: seq<byte>, b: seq<byte>)
    ensures Join([a, b]) == a + b
  {
    assert [a, b][..1] == [a] && [a][..0] == [];
    assert Join([a]) == a;
  }

  lemma WireParts(p: Publish)
    requires p.qos < 4
    ensures Wire(p) == [HeaderByte(PUBLISH, p.dup, p.qos, p.retain)] + Vbi(|Body(p)|) + Body(p)
  {}

  function Join(bufs: seq<seq<byte>>): seq<byte> {
    if bufs == [] then [] else Join(bufs[..|bufs| - 1]) + bufs[|bufs| - 1]
  }

  /** MQTTPacket_sends: the fixed header with the total length, and then the buffers. */
  method Sends(header: byte, bufs: seq<seq<byte>>) returns (wire: seq<byte>)
    ensures wire == [header] + Vbi(|Join(bufs)|) + Join(bufs)
  {
    hide Vbi;
    var total := 0;
    ghost var joined: seq<byte> := [];
    assert bufs[..|bufs|] == bufs;
    for i := 0 to |bufs|
      invariant total == |Join(bufs[..i])|
    {
      assert bufs[..i + 1][..i] == bufs[..i];
      total := total + |bufs[i]|;
    }
    var n := Encode(null, 0, total);
    var buf := new byte[1 + n];
    buf[0] := header;
    var _ := Encode(buf, 1, total);
    assert buf[..] == [header] + Vbi(total);
    wire := buf[..];
    for i := 0 to |bufs|
      invariant wire == [header] + Vbi(total) + Join(bufs[..i])
    {
      assert bufs[..i + 1][..i] == bufs[..i];
      wire := wire + bufs[i];
    }
  }

  // ---------------------------------------------------------------- receiving

  /** readUTFlen: the string and the position after it. */
  function ReadUtf(data: seq<byte>, at: nat): Option<(seq<byte>, nat)>
    requires at <= |data|
  {
    if |data| - at > 1 then
      var len := IntAt(data, at);
      if at + 2 + len <= |data| then Some((data[at + 2..at + 2 + len], at + 2 + len)) else None
    else None
  }

  /** MQTTPacket_publish for versions before 5. */
  function ParsePublish(header: byte, data: seq<byte>): Option<Publish> {
    var qos := header / 2 % 4;
    match ReadUtf(data, 0)
    case None => None
    case Some((topic, at)) =>
      if qos > 0 then
        if |data| - at < 2 then None
        else Some(Publish(header / 8 % 2 == 1, qos, header % 2 == 1, topic,
                          IntAt(data, at), data[at + 2..]))
      else Some(Publish(header / 8 % 2 == 1, qos, header % 2 == 1, topic, 0, data[at..]))
  }

  datatype Received = Error | Interrupted | Other(kind: nat) | Got(p: Publish, rest: seq<byte>)

  /** MQTTPacket_Factory, for PUBLISH packets; `stream` is what has arrived. */
  function Receive(stream: seq<byte>): Received {
    if stream == [] then Interrupted
    else
      var header, d := stream[0], Decode(stream[1..], 0, 1, 0);
      if !d.ok then (if d.len > 4 then Error else Interrupted)
      else if 1 + d.len > |stream| || |stream| - 1 - d.len < d.value then Interrupted
      else if header / 16 != PUBLISH then Other(header / 16)
      else
        var data := stream[1 + d.len..][..d.value];
        match ParsePublish(header, data)
        case None => Error
        case Some(p) => Got(p, stream[1 + d.len..][d.value..])
  }

  /** What MQTT can carry: section 1.5.3 and 2.2.3 of MQTT 3.1.1. */
  predicate Carried(p: Publish) {
    |p.topic| < 65536 && (p.qos > 0 ==> p.msgId < 65536) && |Body(p)| <= 268_435_455
  }

  lemma HeaderBits(dup: bool, qos: nat, retain: bool)
    requires qos < 4
    ensures var h := HeaderByte(PUBLISH, dup, qos, retain);
            h / 16 == PUBLISH && (h / 8 % 2 == 1 <==> dup) && h / 2 % 4 == qos && (h % 2 == 1 <==> retain)
  {}

  /** The body of a publication reads back exactly when its two-byte fields can hold it. */
  lemma BodyRoundTrip(p: Publish)
    requires WellFormed(p)
    ensures ParsePublish(HeaderByte(PUBLISH, p.dup, p.qos, p.retain), Body(p)) == Some(p) <==>
            |p.topic| < 65536 && (p.qos > 0 ==> p.msgId < 65536)
  {
    hide IntBytes, IntAt;
    HeaderBits(p.dup, p.qos, p.retain);
    var id := if p.qos > 0 then IntBytes(p.msgId) else [];
    var data := Body(p);
    assert data == IntBytes(|p.topic|) + p.topic + (id + p.payload);
    TopicReadsBack(p.topic, id + p.payload);
    if |p.topic| < 65536 && p.qos > 0 {
      IdReadsBack(IntBytes(|p.topic|) + p.topic, p.msgId, p.payload);
    }
  }

  lemma TopicReadsBack(topic: seq<byte>, tail: seq<byte>)
    ensures var len := |topic| % 65536;
            var data := IntBytes(|topic|) + topic + tail;
            && ReadUtf(data, 0) == Some((topic[..len], 2 + len))
            && (len == |topic| ==> topic[..len] == topic && data[2 + len..] == tail)
  {
    var len := |topic| % 65536;
    IntReadsBack(|topic|, topic + tail);
    var data := IntBytes(|topic|) + topic + tail;
    assert data == IntBytes(|topic|) + (topic + tail);
    assert data[2..2 + len] == topic[..len];
  }

  lemma IdReadsBack(front: seq<byte>, n: nat, tail: seq<byte>)
    ensures var data := front + (IntBytes(n) + tail);
            IntAt(data, |front|) == n % 65536 && data[|front| + 2..] == tail
  {
    var data := front + (IntBytes(n) + tail);
    IntReadsBack(n, tail);
    assert data[|front|] == (IntBytes(n) + tail)[0] && data[|front| + 1] == (IntBytes(n) + tail)[1];
  }

  /** What arrives when a publication is sent is that publication, with every byte of it taken and
      none of what follows, exactly when the protocol can carry it. */
  lemma PublishRoundTrip(p: Publish, rest: seq<byte>)
    requires WellFormed(p)
    ensures Receive(Wire(p) + rest) == Got(p, rest) <==> Carried(p)
  {
    hide Vbi, Decode, Body, ParsePublish, HeaderByte, Wire;
    var header, body := HeaderByte(PUBLISH, p.dup, p.qos, p.retain), Body(p);
    HeaderBits(p.dup, p.qos, p.retain);
    WireParts(p);
    var stream := Wire(p) + rest;
    assert stream[0] == header && stream[1..] == Vbi(|body|) + (body + rest);
    VbiRoundTrip(|body|, body + rest);
    VbiLenIsLength(|body|);
    BodyRoundTrip(p);
    if |body| <= MAX_REMAINING {
      var n := VbiLen(|body|);
      assert stream[1 + n..] == body + rest;
      assert (body + rest)[..|body|] == body && (body + rest)[|body|..] == rest;
    }
  }

  /** As long as bytes are missing the receiver waits for them. */
  lemma ShortPublishWaits(p: Publish, k: nat)
    requires WellFormed(p) && Carried(p) && k < |Wire(p)|
    ensures Receive(Wire(p)[..k]) == Interrupted
  {
    hide Vbi, Decode, Body, HeaderByte, Wire;
    WireParts(p);
    var body, stream := Body(p), Wire(p)[..k];
    var n := |Vbi(|body|)|;
    VbiLenIsLength(|body|);
    if 0 < k <= n {
      FrontPart(stream, HeaderByte(PUBLISH, p.dup, p.qos, p.retain), Vbi(|body|), body, k);
      ShortDecode(|body|, k - 1, 0, 1, 0);
    } else if k > n {
      FrontPart(stream, HeaderByte(PUBLISH, p.dup, p.qos, p.retain), Vbi(|body|), body, k);
      VbiRoundTrip(|body|, body[..k - 1 - n]);
    }
  }

  lemma FrontPart(stream: seq<byte>, header: byte, field: seq<byte>, body: seq<byte>, k: nat)
    requires 0 < k <= 1 + |field| + |body| && stream == ([header] + field + body)[..k]
    ensures k <= 1 + |field| ==> stream[1..] == field[..k - 1]
    ensures k > |field| ==> stream[1..] == field + body[..k - 1 - |field|]
  {
    var w := [header] + field + body;
    assert stream[1..] == w[1..k];
    assert w[1..] == field + body;
    assert w[1..k] == (field + body)[..k - 1];
  }

  lemma {:induction false} ShortDecode(n: nat, k: nat, value: nat, multiplier: nat, len: nat)
    requires k < |Vbi(n)| && len + k < 4
    ensures var d := Decode(Vbi(n)[..k], value, multiplier, len); !d.ok && d.len == len + k + 1
    decreases k
  {
    if k > 0 {
      assert Vbi(n)[..k][1..] == Vbi(n / 128)[..k - 1];
      ShortDecode(n / 128, k - 1, value + n % 128 * multiplier, multiplier * 128, len + 1);
    }
  }

  /** A length field of more than four bytes is an error, whatever follows. */
  lemma LongFieldRefused(stream: seq<byte>)
    requires |stream| >= 5 && forall i | 1 <= i < 5 :: stream[i] >= 128
    ensures Receive(stream) == Error
  {
    var s := stream[1..];
    assert s[1..][1..][1..] == s[3..] && s[1..][1..] == s[2..];
  }

  // ---------------------------------------------------------------- the packet in numbers

  function Num(s: seq<byte>, i: nat): int
    requires i < |s|
  {
    s[i]
  }

  /** The first byte: packet type 3, then the flags. Behind the length the topic with its own, the
      message id if there is a quality of service, and the payload. */
  lemma WireInNumbers(p: Publish)
    requires WellFormed(p) && Carried(p)
    ensures var w, b := Wire(p), Body(p);
            var n := |p.topic|;
            && w[0] == 48 + (if p.dup then 8 else 0) + 2 * p.qos + (if p.retain then 1 else 0)
            && |w| == 1 + |Vbi(|b|)| + |b| && w[|w| - |b|..] == b && w[1..|w| - |b|] == Vbi(|b|)
            && |b| >= n + 2 && 256 * Num(b, 0) + Num(b, 1) == n && b[2..n + 2] == p.topic
            && (p.qos == 0 ==> b[n + 2..] == p.payload)
            && (p.qos > 0 ==> |b| >= n + 4 && 256 * Num(b, n + 2) + Num(b, n + 3) == p.msgId && b[n + 4..] == p.payload)
  {
    hide Vbi, IntBytes, IntAt;
    var w, b, n := Wire(p), Body(p), |p.topic|;
    IntReadsBack(n, []);
    assert IntBytes(n) + [] == IntBytes(n);
    assert b[..2] == IntBytes(n) && b[2..n + 2] == p.topic;
    assert b[0] == b[..2][0] && b[1] == b[..2][1];
    IntIs(IntBytes(n));
    if p.qos > 0 {
      IntReadsBack(p.msgId, []);
      assert IntBytes(p.msgId) + [] == IntBytes(p.msgId);
      assert b[n + 2..n + 4] == IntBytes(p.msgId) && b[n + 4..] == p.payload;
      assert b[n + 2] == b[n + 2..n + 4][0] && b[n + 3] == b[n + 2..n + 4][1];
      IntIs(IntBytes(p.msgId));
    } else {
      assert b[n + 2..] == p.payload;
    }
  }

  /** What any PUBLISH body is read to, and when it is refused: it ends within its topic, or within its
      message id. */
  lemma ParseInNumbers(header: byte, data: seq<byte>)
    ensures var r := ParsePublish(header, data);
            var n := if |data| < 2 then 0 else 256 * Num(data, 0) + Num(data, 1);
            var id := if header / 2 % 4 > 0 then 2 else 0;
            if |data| < 2 || |data| < 2 + n + id then r == None
            else && r.Some? && r.value.topic == data[2..2 + n] && r.value.payload == data[2 + n + id..]
                 && r.value.msgId == (if id > 0 then 256 * Num(data, 2 + n) + Num(data, 3 + n) else 0)
                 && r.value.dup == (header / 8 % 2 == 1) && r.value.qos == header / 2 % 4
                 && r.value.retain == (header % 2 == 1)
  {}

  lemma IntIs(s: seq<byte>)
    requires |s| == 2
    ensures IntAt(s, 0) == 256 * Num(s, 0) + Num(s, 1)
  {}

  /** Seven bits a byte, each byte weighing 128 times the one before. */
  function Weighed(s: seq<byte>): nat {
    if s == [] then 0 else s[0] as int % 128 + 128 * Weighed(s[1..])
  }

  /** Section 2.2.3 of MQTT 3.1.1: the bytes weigh the number, and only the last is below 128. */
  lemma {:induction false} VbiInNumbers(n: nat, i: nat)
    requires i < |Vbi(n)|
    ensures Weighed(Vbi(n)) == n
    ensures Vbi(n)[i] < 128 <==> i == |Vbi(n)| - 1
  {
    if n >= 128 {
      VbiInNumbers(n / 128, if i == 0 then 0 else i - 1);
      assert Vbi(n)[1..] == Vbi(n / 128);
    } else {
      assert Weighed([n][1..]) == 0;
    }
  }

  /** The example of section 2.2.3: 321. */
  lemma VbiExample()
    ensures Vbi(321) == [193, 2]
  {
    assert Vbi(2) == [2];
  }

  // ---------------------------------------------------------------- inputs beyond the limits

  /** One more than MQTT allows takes five bytes, and VBIlen says four. */
  lemma VbiLenBeyond()
    ensures VbiLen(268_435_456) == 4 && |Vbi(268_435_456)| == 5
  {
    assert Vbi(268435456) == [128] + Vbi(2097152) && Vbi(2097152) == [128] + Vbi(16384);
    assert Vbi(16384) == [128] + Vbi(128) && Vbi(128) == [128] + Vbi(1);
  }

  /** The message id 65536 arrives as 0. */
  lemma WideMessageIdIsLost(rest: seq<byte>)
    ensures var p := Publish(false, 1, false, [], 65536, []);
            Receive(Wire(p) + rest) == Got(p.(msgId := 0), rest)
  {
    var p := Publish(false, 1, false, [], 65536, []);
    var q := p.(msgId := 0);
    assert IntBytes(65536) == IntBytes(0);
    assert Body(p) == Body(q) && Wire(p) == Wire(q);
    assert |Body(q)| == 4;
    PublishRoundTrip(q, rest);
  }
}
