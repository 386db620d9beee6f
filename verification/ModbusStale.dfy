/** The two block writes do not compare their byte count with the quantity: when the message is
    too short, they store what an earlier message left in the receive buffer. */
module ModbusStale {
  import opened Bytes
  import opened ModbusBits
  import opened ModbusWire
  import opened ModbusServer
  import opened ModbusClient

  // ---------------------------------------------------------------- on the data unit

  /** A block write that the server carries out. */
  predicate Accepted(b: seq<byte>, size: nat, max: nat)
    requires |b| >= 6
  {
    1 <= At16(b, 3) <= max && At16(b, 1) + At16(b, 3) <= size
  }

  /** Two buffers that hold the same first n bytes. */
  predicate SameFront(x: seq<byte>, y: seq<byte>, n: nat) {
    n <= |x| == |y| && forall i | 0 <= i < n :: x[i] == y[i]
  }

  lemma HeadAgrees(x: seq<byte>, y: seq<byte>, n: nat)
    requires SameFront(x, y, n) && n >= 6
    ensures x[0] == y[0] && At16(x, 1) == At16(y, 1) && At16(x, 3) == At16(y, 3) && x[..5] == y[..5]
  {}

  lemma CoilsAgree(x: seq<byte>, y: seq<byte>, n: nat, nb: nat)
    requires SameFront(x, y, n) && n >= 6 + ByteCount(nb)
    ensures Unpacked(x[6..], nb) == Unpacked(y[6..], nb)
  {
    hide Bit;
    forall i | 0 <= i < nb ensures Unpacked(x[6..], nb)[i] == Unpacked(y[6..], nb)[i] {
      assert i / 8 < ByteCount(nb) && x[6..][i / 8] == x[6 + i / 8];
    }
  }

  lemma CoilsDiffer(x: seq<byte>, y: seq<byte>, n: nat, nb: nat)
    requires 6 <= n < 6 + ByteCount(nb) <= |x| == |y| && x[n] == 0 && y[n] == 1
    ensures Unpacked(x[6..], nb) != Unpacked(y[6..], nb)
  {
    var i := 8 * (n - 6);
    assert x[6..][i / 8] == 0 && y[6..][i / 8] == 1;
    assert Unpacked(x[6..], nb)[i] == Bit(0, 0) == 0;
    assert Unpacked(y[6..], nb)[i] == Bit(1, 0) == 1;
  }

  lemma RegistersAgree(x: seq<byte>, y: seq<byte>, n: nat, nb: nat)
    requires SameFront(x, y, n) && n >= 6 + 2 * nb
    ensures Registers(x[6..], nb) == Registers(y[6..], nb)
  {
    forall i | 0 <= i < nb ensures Registers(x[6..], nb)[i] == Registers(y[6..], nb)[i] {
      assert x[6..][2 * i] == x[6 + 2 * i] && x[6..][2 * i + 1] == x[7 + 2 * i];
    }
  }

  lemma RegistersDiffer(x: seq<byte>, y: seq<byte>, n: nat, nb: nat)
    requires 6 <= n < 6 + 2 * nb <= |x| == |y|
    requires forall i | n <= i < |x| :: x[i] == 0 && y[i] == 1
    ensures Registers(x[6..], nb) != Registers(y[6..], nb)
  {
    var i := (n - 6) / 2;
    assert x[6..][2 * i + 1] == 0 && y[6..][2 * i + 1] == 1;
    assert Registers(x[6..], nb)[i] == At16(x[6..], 2 * i) && Registers(y[6..], nb)[i] == At16(y[6..], 2 * i);
    assert At16(x[6..], 2 * i) % 2 == 0 && At16(y[6..], 2 * i) % 2 == 1;
  }

  /** How many bytes, from the function code on, a block write makes the server look at. */
  function Needed(b: seq<byte>): nat
    requires |b| >= 6
  {
    6 + if b[0] == FC_WRITE_MULTIPLE_COILS then ByteCount(At16(b, 3)) else 2 * At16(b, 3)
  }

  predicate BlockWrite(b: seq<byte>) {
    |b| >= 6 && (b[0] == FC_WRITE_MULTIPLE_COILS || b[0] == FC_WRITE_MULTIPLE_REGISTERS)
  }

  predicate Carried(b: seq<byte>, t: Tables)
    requires BlockWrite(b)
  {
    if b[0] == FC_WRITE_MULTIPLE_COILS then Accepted(b, |t.bits|, MAX_WRITE_BITS)
    else Accepted(b, |t.regs|, MAX_WRITE_REGISTERS)
  }

  lemma ServeAgrees(x: seq<byte>, y: seq<byte>, n: nat, t: Tables, version: seq<byte>)
    requires SameFront(x, y, n) && n >= 6 && |x| >= PDU_BUFFER && BlockWrite(x) && t.Valid() && |version| <= 200
    requires Carried(x, t) ==> Needed(x) <= n
    ensures Serve(x, t, version) == Serve(y, t, version)
  {
    hide Unpacked, Registers;
    HeadAgrees(x, y, n);
    if Carried(x, t) {
      if x[0] == FC_WRITE_MULTIPLE_COILS { CoilsAgree(x, y, n, At16(x, 3)); }
      else { RegistersAgree(x, y, n, At16(x, 3)); }
    }
  }

  lemma ServeDiffers(x: seq<byte>, y: seq<byte>, n: nat, t: Tables, version: seq<byte>)
    requires SameFront(x, y, n) && n >= 6 && |x| >= PDU_BUFFER && BlockWrite(x) && t.Valid() && |version| <= 200
    requires Carried(x, t) && n < Needed(x)
    requires forall i | n <= i < |x| :: x[i] == 0 && y[i] == 1
    ensures Serve(x, t, version).Answer? && Serve(y, t, version).Answer?
    ensures Serve(x, t, version).tables != Serve(y, t, version).tables
  {
    hide Unpacked, Registers;
    hide ReadBits, ReadRegisters, WriteCoil, WriteRegister, WriteAndRead, Splice;
    HeadAgrees(x, y, n);
    var address: nat, nb: nat := At16(x, 1), At16(x, 3);
    if x[0] == FC_WRITE_MULTIPLE_COILS {
      hide WriteRegisters;
      CoilsDiffer(x, y, n, nb);
      SplicesDiffer(t.bits, address, Unpacked(x[6..], nb), Unpacked(y[6..], nb));
    } else {
      hide WriteCoils;
      RegistersDiffer(x, y, n, nb);
      SplicesDiffer(t.regs, address, Registers(x[6..], nb), Registers(y[6..], nb));
    }
  }

  lemma SplicesDiffer<T>(s: seq<T>, at: nat, u: seq<T>, v: seq<T>)
    requires u != v && |u| == |v| && at + |u| <= |s|
    ensures Splice(s, at, u) != Splice(s, at, v)
  {
    assert Splice(s, at, u)[at..at + |u|] == u && Splice(s, at, v)[at..at + |v|] == v;
  }

  // ---------------------------------------------------------------- on the message

  /** What the server does with the received message depends on the message alone, and not on what
      lies behind it in the receive buffer. */
  ghost predicate SelfContained(be: Backend, own: int, msg: seq<byte>, t: Tables, version: seq<byte>)
    requires t.Valid() && |version| <= 200
    requires be.HeaderLength() + 1 + be.ChecksumLength() <= |msg| <= MAX_MESSAGE_LENGTH
  {
    forall x, y | Holds(x, msg) && Holds(y, msg) ::
      ReplyTo(be, own, x, |msg|, t, version) == ReplyTo(be, own, y, |msg|, t, version)
  }

  /** A received block write is long enough for its fields and its byte count. */
  lemma ReceivedLength(be: Backend, stream: seq<byte>, n: nat)
    requires Receive(be, Indication, stream) == Received(n)
    ensures be.HeaderLength() + 1 + be.ChecksumLength() <= n <= be.MaxAdu() && n <= |stream|
    ensures stream[be.HeaderLength()] == FC_WRITE_MULTIPLE_COILS
            || stream[be.HeaderLength()] == FC_WRITE_MULTIPLE_REGISTERS ==>
              n >= be.HeaderLength() + 6 + be.ChecksumLength()
  {}

  lemma BufferAgrees(be: Backend, msg: seq<byte>, x: seq<byte>)
    requires be.HeaderLength() + 6 <= |msg| && Holds(x, msg)
    ensures var h := be.HeaderLength();
            && SameFront(x[h..], (msg + x[|msg|..])[h..], |msg| - h)
            && x[h - 1] == msg[h - 1] && ResponseTid(be, x) == ResponseTid(be, msg)
            && x[h..][..|msg| - h] == msg[h..]
            && x[..|msg| - be.ChecksumLength()] == msg[..|msg| - be.ChecksumLength()]
  {
    assert x == msg + x[|msg|..];
  }

  lemma MessageFields(b: seq<byte>, c: seq<byte>, t: Tables)
    requires BlockWrite(b) && |b| <= |c| && c[..|b|] == b
    ensures BlockWrite(c) && Carried(c, t) == Carried(b, t) && Needed(c) == Needed(b)
  {
    forall i | 0 <= i < |b| ensures b[i] == c[i] { assert c[..|b|][i] == c[i]; }
  }

  /** A received block write is self-contained exactly when the server filters it, rejects it, or
      finds all the values it announces inside the message, checksum included. */
  lemma BlockWriteIsSelfContained(be: Backend, own: int, stream: seq<byte>, n: nat, t: Tables, version: seq<byte>)
    requires Receive(be, Indication, stream) == Received(n) && t.Valid() && |version| <= 200
    requires stream[be.HeaderLength()] == FC_WRITE_MULTIPLE_COILS
             || stream[be.HeaderLength()] == FC_WRITE_MULTIPLE_REGISTERS
    ensures var h := be.HeaderLength();
            && h + 1 + be.ChecksumLength() <= n <= MAX_MESSAGE_LENGTH && n <= |stream| && BlockWrite(stream[h..n])
            && (SelfContained(be, own, stream[..n], t, version) <==>
                || (be.RTU? && stream[h - 1] != own && stream[h - 1] != 0)
                || !Carried(stream[h..n], t) || Needed(stream[h..n]) <= n - h)
  {
    hide Receive, SendMsgPre, Serve, Carried, Needed;
    ReceivedLength(be, stream, n);
    var h, msg := be.HeaderLength(), stream[..n];
    var b := stream[h..n];
    assert msg[h..] == b && msg[h - 1] == stream[h - 1];
    if Filtered(be, own, stream[h - 1]) || !Carried(b, t) || Needed(b) <= n - h {
      forall x, y | Holds(x, msg) && Holds(y, msg)
        ensures ReplyTo(be, own, x, n, t, version) == ReplyTo(be, own, y, n, t, version)
      {
        RepliesAgree(be, own, msg, x, y, t, version);
      }
    } else {
      RepliesDiffer(be, own, msg, t, version);
    }
  }

  lemma RepliesAgree(be: Backend, own: int, msg: seq<byte>, x: seq<byte>, y: seq<byte>, t: Tables, version: seq<byte>)
    requires be.HeaderLength() + 6 + be.ChecksumLength() <= |msg| <= MAX_MESSAGE_LENGTH && t.Valid() && |version| <= 200
    requires Holds(x, msg) && Holds(y, msg) && BlockWrite(msg[be.HeaderLength()..])
    requires var b := msg[be.HeaderLength()..];
             Filtered(be, own, msg[be.HeaderLength() - 1]) || !Carried(b, t) || Needed(b) <= |b|
    ensures ReplyTo(be, own, x, |msg|, t, version) == ReplyTo(be, own, y, |msg|, t, version)
  {
    hide SendMsgPre, Serve, Carried, Needed;
    var h := be.HeaderLength();
    BufferAgrees(be, msg, x);
    BufferAgrees(be, msg, y);
    MessageFields(msg[h..], x[h..], t);
    forall i | 0 <= i < |msg| - h ensures x[h..][i] == y[h..][i] {
      assert x[h..][..|msg| - h][i] == y[h..][..|msg| - h][i];
    }
    if !Filtered(be, own, msg[h - 1]) { ServeAgrees(x[h..], y[h..], |msg| - h, t, version); }
  }

  lemma RepliesDiffer(be: Backend, own: int, msg: seq<byte>, t: Tables, version: seq<byte>)
    requires be.HeaderLength() + 6 + be.ChecksumLength() <= |msg| <= MAX_MESSAGE_LENGTH && t.Valid() && |version| <= 200
    requires BlockWrite(msg[be.HeaderLength()..]) && !Filtered(be, own, msg[be.HeaderLength() - 1])
    requires var b := msg[be.HeaderLength()..]; Carried(b, t) && |b| < Needed(b)
    ensures !SelfContained(be, own, msg, t, version)
  {
    hide SendMsgPre, Serve, Carried, Needed;
    var h, rest := be.HeaderLength(), MAX_MESSAGE_LENGTH - |msg|;
    var x, y := msg + seq(rest, _ => 0), msg + seq(rest, _ => 1);
    assert Holds(x, msg) && Holds(y, msg);
    BufferAgrees(be, msg, x);
    BufferAgrees(be, msg, y);
    MessageFields(msg[h..], x[h..], t);
    forall i | 0 <= i < |x| - h ensures
      if i < |msg| - h then x[h..][i] == y[h..][i] else x[h..][i] == 0 && y[h..][i] == 1
    {
      assert x[h..][i] == x[h + i] && y[h..][i] == y[h + i];
    }
    assert SameFront(x[h..], y[h..], |msg| - h);
    ServeDiffers(x[h..], y[h..], |msg| - h, t, version);
    assert ReplyTo(be, own, x, |msg|, t, version) != ReplyTo(be, own, y, |msg|, t, version);
  }

  /** Such a message passes the receiver of either backend: 25 coils announced, byte count 1. */
  lemma ShortMessageIsTaken(be: Backend, own: int, tid: word, slave: byte, rest: seq<byte>, t: Tables,
                            version: seq<byte>)
    requires t.Valid() && |version| <= 200 && |t.bits| >= 25
    requires be.TCP? || slave == own || slave == 0
    ensures var msg := Frame(be, tid, slave, [FC_WRITE_MULTIPLE_COILS, 0, 0, 0, 25, 1, 0xFF]);
            && Receive(be, Indication, msg + rest) == Received(|msg|)
            && be.HeaderLength() + 1 + be.ChecksumLength() <= |msg| <= MAX_MESSAGE_LENGTH
            && !SelfContained(be, own, msg, t, version)
  {
    hide Frame, Receive;
    var p: seq<byte> := [FC_WRITE_MULTIPLE_COILS, 0, 0, 0, 25, 1, 0xFF];
    var h, msg := be.HeaderLength(), Frame(be, tid, slave, p);
    OneFrame(be, Indication, tid, slave, p, rest);
    FrameLayout(be, tid, slave, p);
    var b := msg[h..];
    forall i | 0 <= i < 7 ensures b[i] == p[i] { assert msg[h..h + 7][i] == msg[h + i]; }
    assert b[1] == p[1] && b[2] == p[2] && b[3] == p[3] && b[4] == p[4];
    RepliesDiffer(be, own, msg, t, version);
  }
}
