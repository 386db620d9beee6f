/** Proof that the wire protocol refines the plain array machine. */
module ModbusRefinement {
  import opened Bytes
  import opened ModbusBits
  import opened ModbusWire
  import opened ModbusServer
  import opened ModbusClient

  // ---------------------------------------------------------------- data units in canonical form

  lemma HiLoLow16(x: int)
    ensures Hi(x) as int * 0x100 + Lo(x) as int == Low16(x)
  {}

  lemma Low16Small(x: nat)
    requires x < 0x1_0000
    ensures Low16(x) == x
  {}

  lemma ByteCountBound(nb: nat)
    requires nb <= MAX_READ_BITS
    ensures ByteCount(nb) <= 250 && nb <= 8 * ByteCount(nb)
  {}

  lemma WriteByteCountBound(nb: nat)
    requires nb <= MAX_WRITE_BITS
    ensures ByteCount(nb) <= 246 && nb <= 8 * ByteCount(nb)
  {}

  lemma BasisFields(f: byte, addr: int, nb: int, b: seq<byte>)
    requires |b| >= 5 && b[..5] == Basis(f, addr, nb)
    ensures b[0] == f && At16(b, 1) == Low16(addr) && At16(b, 3) == Low16(nb)
  {
    hide Hi, Lo, Low16;
    HiLoLow16(addr);
    HiLoLow16(nb);
    assert b[0] == b[..5][0] && b[1] == b[..5][1] && b[2] == b[..5][2] && b[3] == b[..5][3] && b[4] == b[..5][4];
  }

  /** The exception code the server answers a failing call with. */
  function FailCode(call: Call, t: Tables): byte {
    match call
    case GetBits(_, nb) => if nb < 1 then ILLEGAL_DATA_VALUE else ILLEGAL_DATA_ADDRESS
    case GetInputBits(_, nb) => if nb < 1 then ILLEGAL_DATA_VALUE else ILLEGAL_DATA_ADDRESS
    case GetRegisters(_, nb) => if nb < 1 then ILLEGAL_DATA_VALUE else ILLEGAL_DATA_ADDRESS
    case GetInputRegisters(_, nb) => if nb < 1 then ILLEGAL_DATA_VALUE else ILLEGAL_DATA_ADDRESS
    case PutBit(_, _) => ILLEGAL_DATA_ADDRESS
    case PutRegister(_, _) => ILLEGAL_DATA_ADDRESS
    case PutBits(_, bits) => if |bits| < 1 then ILLEGAL_DATA_VALUE else ILLEGAL_DATA_ADDRESS
    case PutRegisters(_, regs) => if |regs| < 1 then ILLEGAL_DATA_VALUE else ILLEGAL_DATA_ADDRESS
    case PutGetRegisters(_, regs, _, nb) => if |regs| < 1 || nb < 1 then ILLEGAL_DATA_VALUE else ILLEGAL_DATA_ADDRESS
  }

  /** The response data unit the outcome of a call calls for. */
  function Response(call: Call, t: Tables): (pdu: seq<byte>)
    requires !RefusedLocally(call) && t.Valid()
    ensures |pdu| >= 2
  {
    var f := FunctionOf(call);
    match Plain(call, t).0
    case Failed => Exception(f, FailCode(call, t))
    case Bits(bits) => [f, ByteCount(|bits|)] + Packed(bits)
    case Regs(regs) => [f, 2 * |regs|] + RegisterBytes(regs)
    case Done(_) => Request(call)[..5]
  }

  // ---------------------------------------------------------------- the server serves the plain call

  predicate Begins(pdu: seq<byte>, b: seq<byte>) {
    |b| >= PDU_BUFFER && |pdu| <= |b| && b[..|pdu|] == pdu
  }

  lemma RequestHead(call: Call, b: seq<byte>)
    requires !RefusedLocally(call) && Begins(Request(call), b)
    ensures b[..5] == Request(call)[..5] && b[0] == FunctionOf(call)
  {
    assert b[..|Request(call)|][..5] == b[..5];
    assert b[0] == b[..5][0];
  }

  lemma Payload(pdu: seq<byte>, b: seq<byte>, head: seq<byte>, data: seq<byte>)
    requires pdu == head + data && |pdu| <= |b| && b[..|pdu|] == pdu
    ensures b[|head|..][..|data|] == data
  {
    assert b[|head|..|pdu|] == b[..|pdu|][|head|..];
  }

  lemma RegistersPrefix(bytes: seq<byte>, regs: seq<word>)
    requires 2 * |regs| <= |bytes| && bytes[..2 * |regs|] == RegisterBytes(regs)
    ensures Registers(bytes, |regs|) == regs
  {
    hide RegisterBytes;
    RegistersOfBytes(regs);
    var p := bytes[..2 * |regs|];
    forall i | 0 <= i < |regs| ensures Registers(bytes, |regs|)[i] == regs[i] {
      assert At16(bytes, 2 * i) == At16(p, 2 * i);
      assert Registers(p, |regs|)[i] == regs[i];
    }
  }

  lemma UnpackedPrefix(bytes: seq<byte>, bits: seq<byte>)
    requires Binary(bits) && ByteCount(|bits|) <= |bytes| && bytes[..ByteCount(|bits|)] == Packed(bits)
    ensures Unpacked(bytes, |bits|) == bits
  {
    hide Packed, Bit;
    UnpackPacked(bits);
    var p := bytes[..ByteCount(|bits|)];
    forall i | 0 <= i < |bits| ensures Unpacked(bytes, |bits|)[i] == bits[i] {
      assert BitAt(bytes, i) == BitAt(p, i);
      assert Unpacked(p, |bits|)[i] == bits[i];
    }
  }

  lemma ReadBitsFields(b: seq<byte>, cells: seq<byte>, t: Tables, f: byte, addr: int, nb: nat)
    requires |b| >= 5 && b[..5] == Basis(f, addr, nb) && nb <= MAX_READ_BITS && Binary(cells)
    ensures Within(addr, nb, MAX_READ_BITS, |cells|) ==> Binary(cells[Low16(addr)..Low16(addr) + nb])
    ensures ReadBits(b, cells, t)
         == if Within(addr, nb, MAX_READ_BITS, |cells|)
            then Answer([f, ByteCount(nb)] + Packed(cells[Low16(addr)..Low16(addr) + nb]), t)
            else Answer(Exception(f, if nb < 1 then ILLEGAL_DATA_VALUE else ILLEGAL_DATA_ADDRESS), t)
  {
    hide Packed, ByteCount, Low16, Hi, Lo;
    ByteCountBound(nb);
    Low16Small(nb);
    BasisFields(f, addr, nb, b);
  }

  lemma ServeGetBits(call: Call, b: seq<byte>, t: Tables, version: seq<byte>)
    requires call.GetBits? || call.GetInputBits?
    requires !RefusedLocally(call) && Begins(Request(call), b) && t.Valid() && |version| <= 200
    ensures Serve(b, t, version) == Answer(Response(call, t), t) && Plain(call, t).1 == t
  {
    hide Packed, RegisterBytes, ReadBits, ReadRegisters, WriteCoil, WriteRegister, WriteCoils, WriteRegisters,
         WriteAndRead;
    RequestHead(call, b);
    ReadBitsFields(b, if call.GetBits? then t.bits else t.inputBits, t, FunctionOf(call), call.addr, call.nb);
  }

  lemma ServeGetRegisters(call: Call, b: seq<byte>, t: Tables, version: seq<byte>)
    requires call.GetRegisters? || call.GetInputRegisters?
    requires !RefusedLocally(call) && Begins(Request(call), b) && t.Valid() && |version| <= 200
    ensures Serve(b, t, version) == Answer(Response(call, t), t) && Plain(call, t).1 == t
  {
    hide Packed, RegisterBytes, ReadBits, WriteCoil, WriteRegister, WriteCoils, WriteRegisters, WriteAndRead, Low16,
         Hi, Lo;
    Low16Small(call.nb);
    RequestHead(call, b);
    BasisFields(FunctionOf(call), call.addr, call.nb, b);
  }

  /** Single writes: the request comes back. */
  lemma ServePutOne(call: Call, b: seq<byte>, t: Tables, version: seq<byte>)
    requires call.PutBit? || call.PutRegister?
    requires Begins(Request(call), b) && t.Valid() && |version| <= 200
    ensures var (r, t') := Plain(call, t);
            Serve(b, t, version) == if r.Failed? then Answer(Response(call, t), t') else Echo(t')
  {
    RequestHead(call, b);
    if call.PutBit? {
      BasisFields(FunctionOf(call), call.addr, if call.on then 0xFF00 else 0, b);
    } else {
      BasisFields(FunctionOf(call), call.addr, call.value, b);
    }
  }

  lemma ServePutBits(call: Call, b: seq<byte>, t: Tables, version: seq<byte>)
    requires call.PutBits?
    requires !RefusedLocally(call) && Begins(Request(call), b) && t.Valid() && |version| <= 200
    ensures Serve(b, t, version) == Answer(Response(call, t), Plain(call, t).1)
  {
    hide Packed, RegisterBytes, Splice, Unpacked, Normalized, ByteCount, Low16, Hi, Lo, ReadBits, ReadRegisters;
    hide WriteRegisters, WriteAndRead;
    WriteByteCountBound(|call.bits|);
    Low16Small(|call.bits|);
    RequestHead(call, b);
    var bits := Normalized(call.bits);
    var head := Basis(FunctionOf(call), call.addr, |bits|) + [ByteCount(|bits|)];
    assert Request(call)[..5] == Basis(FunctionOf(call), call.addr, |bits|);
    BasisFields(FunctionOf(call), call.addr, |bits|, b);
    Payload(Request(call), b, head, Packed(bits));
    UnpackedPrefix(b[6..], bits);
  }

  lemma ServePutRegisters(call: Call, b: seq<byte>, t: Tables, version: seq<byte>)
    requires call.PutRegisters?
    requires !RefusedLocally(call) && Begins(Request(call), b) && t.Valid() && |version| <= 200
    ensures Serve(b, t, version) == Answer(Response(call, t), Plain(call, t).1)
  {
    hide Packed, RegisterBytes, Splice, Registers, Low16, Hi, Lo, ReadBits, ReadRegisters, WriteCoils, WriteAndRead;
    Low16Small(|call.regs|);
    RequestHead(call, b);
    var regs := call.regs;
    var head := Basis(FunctionOf(call), call.addr, |regs|) + [2 * |regs|];
    assert Request(call)[..5] == Basis(FunctionOf(call), call.addr, |regs|);
    BasisFields(FunctionOf(call), call.addr, |regs|, b);
    Payload(Request(call), b, head, RegisterBytes(regs));
    RegistersPrefix(b[6..], regs);
  }

  lemma PutGetFields(call: Call, b: seq<byte>)
    requires call.PutGetRegisters?
    requires !RefusedLocally(call) && Begins(Request(call), b)
    ensures b[0] == FunctionOf(call)
    ensures At16(b, 1) == Low16(call.readAddr) && At16(b, 3) == call.nb
    ensures At16(b, 5) == Low16(call.writeAddr) && At16(b, 7) == |call.regs| && b[9] == 2 * |call.regs|
    ensures Registers(b[10..], |call.regs|) == call.regs
  {
    hide RegisterBytes, Registers;
    RequestHead(call, b);
    var regs := call.regs;
    var p := Request(call);
    var head := Basis(FunctionOf(call), call.readAddr, call.nb)
              + [Hi(call.writeAddr), Lo(call.writeAddr), Hi(|regs|), Lo(|regs|), 2 * |regs|];
    assert p[..5] == Basis(FunctionOf(call), call.readAddr, call.nb);
    BasisFields(FunctionOf(call), call.readAddr, call.nb, b);
    forall i | 0 <= i < 10 ensures b[i] == head[i] { assert b[i] == b[..|p|][i]; }
    HiLoLow16(call.writeAddr);
    HiLoLow16(|regs|);
    Payload(p, b, head, RegisterBytes(regs));
    RegistersPrefix(b[10..], regs);
  }

  lemma ServePutGet(call: Call, b: seq<byte>, t: Tables, version: seq<byte>)
    requires call.PutGetRegisters?
    requires !RefusedLocally(call) && Begins(Request(call), b) && t.Valid() && |version| <= 200
    ensures Serve(b, t, version) == Answer(Response(call, t), Plain(call, t).1)
  {
    hide RegisterBytes, Registers, Splice, Request, Low16;
    PutGetFields(call, b);
  }

  /** Whatever lies behind the request in the receive buffer, the server does to its tables
      what the plain machine does, and answers with the data unit for that outcome. */
  lemma ServeIsPlain(call: Call, b: seq<byte>, t: Tables, version: seq<byte>)
    requires !RefusedLocally(call) && Begins(Request(call), b) && t.Valid() && |version| <= 200
    ensures var (r, t') := Plain(call, t);
            Serve(b, t, version) ==
              if (call.PutBit? || call.PutRegister?) && !r.Failed? then Echo(t') else Answer(Response(call, t), t')
  {
    hide *;
    match call
    case GetBits(_, _) => ServeGetBits(call, b, t, version);
    case GetInputBits(_, _) => ServeGetBits(call, b, t, version);
    case GetRegisters(_, _) => ServeGetRegisters(call, b, t, version);
    case GetInputRegisters(_, _) => ServeGetRegisters(call, b, t, version);
    case PutBit(_, _) => ServePutOne(call, b, t, version);
    case PutRegister(_, _) => ServePutOne(call, b, t, version);
    case PutBits(_, _) => ServePutBits(call, b, t, version);
    case PutRegisters(_, _) => ServePutRegisters(call, b, t, version);
    case PutGetRegisters(_, _, _, _) => ServePutGet(call, b, t, version);
  }

  // ---------------------------------------------------------------- both directions fit and delimit themselves

  lemma RequestDelimits(be: Backend, call: Call)
    requires !RefusedLocally(call)
    ensures SelfDelimiting(be, Indication, Request(call))
  {
    hide Packed, RegisterBytes, Normalized, Hi, Lo;
    var p := Request(call);
    match call
    case PutBits(addr, bits) => assert p[..6][5] == ByteCount(|bits|);
    case PutRegisters(addr, regs) => assert p[..6][5] == 2 * |regs|;
    case PutGetRegisters(_, regs, _, _) => assert p[..10][9] == 2 * |regs|;
    case _ =>
  }

  lemma PlainSizes(call: Call, t: Tables)
    requires !RefusedLocally(call) && t.Valid()
    ensures match Plain(call, t).0
            case Failed => true
            case Bits(bits) => (call.GetBits? || call.GetInputBits?) && Binary(bits)
              && |bits| == call.nb <= MAX_READ_BITS
            case Regs(regs) => (call.GetRegisters? || call.GetInputRegisters? || call.PutGetRegisters?)
                            && |regs| == call.nb <= MAX_READ_REGISTERS
            case Done(n) => (call.PutBit? || call.PutRegister? || call.PutBits? || call.PutRegisters?)
  {}

  lemma ResponseDelimits(be: Backend, call: Call, t: Tables)
    requires !RefusedLocally(call) && t.Valid()
    ensures SelfDelimiting(be, Confirmation, Response(call, t))
  {
    hide Packed, RegisterBytes, Plain, Request;
    PlainSizes(call, t);
    var p := Response(call, t);
    match Plain(call, t).0
    case Failed =>
    case Bits(bits) => assert p[..2][1] == ByteCount(|bits|);
    case Regs(regs) => assert p[..2][1] == 2 * |regs|;
    case Done(_) => assert p[0] == Request(call)[0];
  }

  // ---------------------------------------------------------------- the reply as a frame

  lemma BufferPdu(be: Backend, tid: word, slave: byte, pdu: seq<byte>, buffer: seq<byte>)
    requires pdu != [] && Holds(buffer, Frame(be, tid, slave, pdu))
    ensures Begins(pdu, buffer[be.HeaderLength()..])
    ensures buffer[be.HeaderLength() - 1] == slave
    ensures be.TCP? ==> At16(buffer, 0) == tid
  {
    hide Frame, CheckIntegrity, Hi, Lo;
    FrameLayout(be, tid, slave, pdu);
    var f := Frame(be, tid, slave, pdu);
    var h := be.HeaderLength();
    assert buffer[h..][..|pdu|] == buffer[..|f|][h..h + |pdu|];
    assert buffer[h - 1] == buffer[..|f|][h - 1];
    if be.TCP? {
      assert buffer[0] == buffer[..|f|][0] && buffer[1] == buffer[..|f|][1];
      HiLo(tid);
    }
  }

  /** Sealing the unsealed part of a frame again gives the frame. */
  lemma EchoIsFrame(be: Backend, tid: word, slave: byte, pdu: seq<byte>)
    requires pdu != []
    ensures var f := Frame(be, tid, slave, pdu);
            |f| - be.ChecksumLength() > be.HeaderLength() && SendMsgPre(be, f[..|f| - be.ChecksumLength()]) == f
  {
    hide CrcBytes, Hi, Lo;
    var f := Frame(be, tid, slave, pdu);
    if be.RTU? {
      assert f[..|f| - 2] == Header(be, tid, slave) + pdu;
    } else {
      assert f[..|f|] == f;
    }
  }

  lemma ReplyIsFrame(be: Backend, e: Ends, tid: word, call: Call, t: Tables, buffer: seq<byte>)
    requires !RefusedLocally(call) && t.Valid() && e.Valid()
    requires Holds(buffer, Frame(be, tid, e.client, Request(call)))
    ensures var n := |Frame(be, tid, e.client, Request(call))|;
            && be.HeaderLength() + 1 + be.ChecksumLength() <= n <= |buffer|
            && ReplyTo(be, e.server, buffer, n, t, e.version)
            == if be.TCP? || e.client == e.server || e.client == 0
               then Sent(Frame(be, tid, e.client, Response(call, t)), Plain(call, t).1) else Quiet(t)
  {
    hide Serve, Response, Plain, Request, Frame, SendMsgPre, CheckIntegrity, Hi, Lo;
    var f := Frame(be, tid, e.client, Request(call));
    var h := be.HeaderLength();
    FrameLayout(be, tid, e.client, Request(call));
    BufferPdu(be, tid, e.client, Request(call), buffer);
    if be.TCP? || e.client == e.server || e.client == 0 {
      ServeIsPlain(call, buffer[h..], t, e.version);
      FrameDef(be, tid, e.client, Response(call, t));
      assert Header(be, ResponseTid(be, buffer), e.client) == Header(be, tid, e.client);
      EchoIsFrame(be, tid, e.client, Request(call));
      var cut := |f| - be.ChecksumLength();
      assert buffer[..cut] == buffer[..|f|][..cut];
      EchoResponse(call, t);
    }
  }

  lemma FrameDef(be: Backend, tid: word, slave: byte, pdu: seq<byte>)
    requires pdu != []
    ensures Frame(be, tid, slave, pdu) == SendMsgPre(be, Header(be, tid, slave) + pdu)
  {}

  lemma EchoResponse(call: Call, t: Tables)
    requires !RefusedLocally(call) && t.Valid()
    ensures (call.PutBit? || call.PutRegister?) && !Plain(call, t).0.Failed? ==> Response(call, t) == Request(call)
  {
    if (call.PutBit? || call.PutRegister?) && !Plain(call, t).0.Failed? {
      assert Request(call)[..5] == Request(call);
    }
  }

  // ---------------------------------------------------------------- the client's verdict

  lemma FrameAt(be: Backend, tid: word, slave: byte, pdu: seq<byte>, i: nat)
    requires i < |pdu|
    ensures |Frame(be, tid, slave, pdu)| == be.HeaderLength() + |pdu| + be.ChecksumLength()
    ensures Frame(be, tid, slave, pdu)[be.HeaderLength() + i] == pdu[i]
  {
    hide Frame, CheckIntegrity, Hi, Lo;
    FrameLayout(be, tid, slave, pdu);
    var f := Frame(be, tid, slave, pdu);
    assert f[be.HeaderLength() + i] == f[be.HeaderLength()..be.HeaderLength() + |pdu|][i];
  }

  /** The quantity field of any request, as the response check reads it. */
  lemma RequestQuantity(be: Backend, tid: word, slave: byte, call: Call)
    requires !RefusedLocally(call)
    ensures var req := Frame(be, tid, slave, Request(call));
            var h := be.HeaderLength();
            && |req| >= h + 5 && req[h] == FunctionOf(call)
            && At16(req, h + 3) == Low16(match call
                                         case PutBit(_, on) => if on then 0xFF00 else 0
                                         case PutRegister(_, v) => v
                                         case PutBits(_, bits) => |bits|
                                         case PutRegisters(_, regs) => |regs|
                                         case GetBits(_, nb) => nb
                                         case GetInputBits(_, nb) => nb
                                         case GetRegisters(_, nb) => nb
                                         case GetInputRegisters(_, nb) => nb
                                         case PutGetRegisters(_, _, _, nb) => nb)
  {
    hide Frame, Packed, RegisterBytes, Normalized, Hi, Lo, Low16;
    var p := Request(call);
    FrameAt(be, tid, slave, p, 0);
    FrameAt(be, tid, slave, p, 3);
    FrameAt(be, tid, slave, p, 4);
    var q := match call
             case PutBit(_, on) => if on then 0xFF00 else 0
             case PutRegister(_, v) => v
             case PutBits(_, bits) => |bits|
             case PutRegisters(_, regs) => |regs|
             case GetBits(_, nb) => nb
             case GetInputBits(_, nb) => nb
             case GetRegisters(_, nb) => nb
             case GetInputRegisters(_, nb) => nb
             case PutGetRegisters(_, _, _, nb) => nb;
    HiLoLow16(q);
  }

  lemma SameTransaction(be: Backend, tid: word, slave: byte, p: seq<byte>, q: seq<byte>)
    requires p != [] && q != []
    ensures be.TCP? ==> Frame(be, tid, slave, p)[0] == Frame(be, tid, slave, q)[0]
    ensures be.TCP? ==> Frame(be, tid, slave, p)[1] == Frame(be, tid, slave, q)[1]
  {
    hide CrcBytes, Hi, Lo;
  }

  lemma ConfirmFailed(be: Backend, tid: word, slave: byte, call: Call, code: byte)
    requires !RefusedLocally(call)
    ensures var req := Frame(be, tid, slave, Request(call));
            var rsp := Frame(be, tid, slave, Exception(FunctionOf(call), code));
            && |req| >= be.HeaderLength() + 5 && |rsp| >= be.HeaderLength() + 2
            && CheckConfirmation(be, req, rsp) == -1 && Confirm(be, call, req, rsp) == Failed
  {
    hide Frame, Request, Low16;
    var p := Exception(FunctionOf(call), code);
    RequestQuantity(be, tid, slave, call);
    FrameAt(be, tid, slave, p, 0);
    assert p[0] != FunctionOf(call);
  }

  /** The count check passes on a response that carries the number of values asked for. */
  lemma CountBits(be: Backend, tid: word, slave: byte, call: Call, data: seq<byte>)
    requires !RefusedLocally(call) && (call.GetBits? || call.GetInputBits?)
    requires |data| == ByteCount(call.nb)
    ensures var req := Frame(be, tid, slave, Request(call));
            var rsp := Frame(be, tid, slave, [FunctionOf(call), ByteCount(call.nb)] + data);
            && |req| >= be.HeaderLength() + 5 && |rsp| >= be.HeaderLength() + 2
            && CheckConfirmation(be, req, rsp) == ByteCount(call.nb)
  {
    hide Frame, Request, CheckIntegrity, Hi, Lo, ByteCount, Low16;
    ByteCountBound(call.nb);
    Low16Small(call.nb);
    var p := [FunctionOf(call), ByteCount(call.nb)] + data;
    RequestQuantity(be, tid, slave, call);
    SameTransaction(be, tid, slave, Request(call), p);
    FrameAt(be, tid, slave, p, 0);
    FrameAt(be, tid, slave, p, 1);
  }

  lemma CountRegs(be: Backend, tid: word, slave: byte, call: Call, data: seq<byte>)
    requires !RefusedLocally(call) && (call.GetRegisters? || call.GetInputRegisters? || call.PutGetRegisters?)
    requires |data| == 2 * call.nb
    ensures var req := Frame(be, tid, slave, Request(call));
            var rsp := Frame(be, tid, slave, [FunctionOf(call), 2 * call.nb] + data);
            && |req| >= be.HeaderLength() + 5 && |rsp| >= be.HeaderLength() + 2
            && CheckConfirmation(be, req, rsp) == call.nb
  {
    hide Frame, Request, CheckIntegrity, Hi, Lo, Low16, ByteCount;
    Low16Small(call.nb);
    var p := [FunctionOf(call), 2 * call.nb] + data;
    RequestQuantity(be, tid, slave, call);
    SameTransaction(be, tid, slave, Request(call), p);
    FrameAt(be, tid, slave, p, 0);
    FrameAt(be, tid, slave, p, 1);
  }

  lemma FrameData(be: Backend, tid: word, slave: byte, x: byte, y: byte, data: seq<byte>)
    ensures var rsp := Frame(be, tid, slave, [x, y] + data);
            && |rsp| >= be.HeaderLength() + 2 + |data|
            && rsp[be.HeaderLength() + 2..][..|data|] == data
  {
    hide Frame, CheckIntegrity, Hi, Lo;
    var p := [x, y] + data;
    FrameLayout(be, tid, slave, p);
    var rsp := Frame(be, tid, slave, p);
    var h := be.HeaderLength();
    assert rsp[h + 2..][..|data|] == rsp[h..h + |p|][2..];
  }

  lemma ConfirmBits(be: Backend, tid: word, slave: byte, call: Call, bits: seq<byte>)
    requires !RefusedLocally(call) && (call.GetBits? || call.GetInputBits?)
    requires Binary(bits) && |bits| == call.nb >= 1
    ensures var req := Frame(be, tid, slave, Request(call));
            var rsp := Frame(be, tid, slave, [FunctionOf(call), ByteCount(|bits|)] + Packed(bits));
            && |req| >= be.HeaderLength() + 5 && |rsp| >= be.HeaderLength() + 2
            && Confirm(be, call, req, rsp) == Bits(bits)
  {
    hide Frame, Request, Packed, Unpacked, CheckConfirmation;
    CountBits(be, tid, slave, call, Packed(bits));
    FrameData(be, tid, slave, FunctionOf(call), ByteCount(|bits|), Packed(bits));
    UnpackPacked(bits);
  }

  lemma ConfirmRegs(be: Backend, tid: word, slave: byte, call: Call, regs: seq<word>)
    requires !RefusedLocally(call) && (call.GetRegisters? || call.GetInputRegisters? || call.PutGetRegisters?)
    requires |regs| == call.nb >= 1
    ensures var req := Frame(be, tid, slave, Request(call));
            var rsp := Frame(be, tid, slave, [FunctionOf(call), 2 * |regs|] + RegisterBytes(regs));
            && |req| >= be.HeaderLength() + 5 && |rsp| >= be.HeaderLength() + 2
            && Confirm(be, call, req, rsp) == Regs(regs)
  {
    hide Frame, Request, RegisterBytes, Registers, CheckConfirmation;
    CountRegs(be, tid, slave, call, RegisterBytes(regs));
    FrameData(be, tid, slave, FunctionOf(call), 2 * |regs|, RegisterBytes(regs));
    var rsp := Frame(be, tid, slave, [FunctionOf(call), 2 * |regs|] + RegisterBytes(regs));
    RegistersPrefix(rsp[be.HeaderLength() + 2..], regs);
  }

  lemma ConfirmDone(be: Backend, tid: word, slave: byte, call: Call)
    requires !RefusedLocally(call) && (call.PutBit? || call.PutRegister? || call.PutBits? || call.PutRegisters?)
    ensures var req := Frame(be, tid, slave, Request(call));
            var rsp := Frame(be, tid, slave, Request(call)[..5]);
            && |req| >= be.HeaderLength() + 5 && |rsp| >= be.HeaderLength() + 2
            && Confirm(be, call, req, rsp)
            == Done(if call.PutBits? then |call.bits| else if call.PutRegisters? then |call.regs| else 1)
  {
    hide Frame, Request, Hi, Lo;
    var p := Request(call)[..5];
    RequestQuantity(be, tid, slave, call);
    SameTransaction(be, tid, slave, Request(call), p);
    FrameAt(be, tid, slave, p, 0);
    FrameAt(be, tid, slave, p, 3);
    FrameAt(be, tid, slave, p, 4);
    FrameAt(be, tid, slave, Request(call), 3);
    FrameAt(be, tid, slave, Request(call), 4);
  }

  lemma ConfirmIsPlain(be: Backend, tid: word, slave: byte, call: Call, t: Tables)
    requires !RefusedLocally(call) && t.Valid()
    ensures var req := Frame(be, tid, slave, Request(call));
            var rsp := Frame(be, tid, slave, Response(call, t));
            && |req| >= be.HeaderLength() + 5 && |rsp| >= be.HeaderLength() + 2
            && Confirm(be, call, req, rsp) == Plain(call, t).0
            && (Plain(call, t).0.Failed? ==> CheckConfirmation(be, req, rsp) == -1)
  {
    hide Frame, Request, Packed, RegisterBytes, Confirm, CheckConfirmation, Exception;
    PlainSizes(call, t);
    match Plain(call, t).0
    case Failed => ConfirmFailed(be, tid, slave, call, FailCode(call, t));
    case Bits(bits) => ConfirmBits(be, tid, slave, call, bits);
    case Regs(regs) => ConfirmRegs(be, tid, slave, call, regs);
    case Done(n) => ConfirmDone(be, tid, slave, call);
  }

  // ---------------------------------------------------------------- the refinement

  /** The request arrives whole, and the buffer it lands in answers with the response frame. */
  lemma RequestServed(be: Backend, e: Ends, tid: word, call: Call, t: Tables, stale: seq<byte>)
    requires e.Valid() && t.Valid() && |stale| == MAX_MESSAGE_LENGTH && !RefusedLocally(call)
    ensures var req := Frame(be, tid, e.client, Request(call));
            && be.HeaderLength() + 5 <= |req| <= be.MaxAdu()
            && be.HeaderLength() + 1 + be.ChecksumLength() <= |req|
            && Receive(be, Indication, req) == Received(|req|)
            && ReplyTo(be, e.server, req[..|req|] + stale[|req|..], |req|, t, e.version)
            == if be.TCP? || e.client == e.server || e.client == 0
               then Sent(Frame(be, tid, e.client, Response(call, t)), Plain(call, t).1) else Quiet(t)
  {
    hide Frame, Request, Response, Plain, Receive, ReplyTo;
    var req := Frame(be, tid, e.client, Request(call));
    RequestDelimits(be, call);
    OneFrame(be, Indication, tid, e.client, Request(call), []);
    FrameAt(be, tid, e.client, Request(call), 0);
    assert req + [] == req && req[..|req|] == req;
    assert Holds(req + stale[|req|..], req);
    ReplyIsFrame(be, e, tid, call, t, req + stale[|req|..]);
  }

  /** The response arrives whole, and the client reads the plain result from it. */
  lemma ResponseConfirmed(be: Backend, tid: word, slave: byte, call: Call, t: Tables)
    requires !RefusedLocally(call) && t.Valid()
    ensures var req := Frame(be, tid, slave, Request(call));
            var rsp := Frame(be, tid, slave, Response(call, t));
            && be.HeaderLength() + 5 <= |req| && be.HeaderLength() + 2 <= |rsp| <= be.MaxAdu()
            && Receive(be, Confirmation, rsp) == Received(|rsp|)
            && Confirm(be, call, req, rsp[..|rsp|]) == Plain(call, t).0
            && (Plain(call, t).0.Failed? ==> CheckConfirmation(be, req, rsp[..|rsp|]) == -1)
  {
    hide Frame, Request, Response, Plain, Receive, Confirm, CheckConfirmation;
    var rsp := Frame(be, tid, slave, Response(call, t));
    ResponseDelimits(be, call, t);
    OneFrame(be, Confirmation, tid, slave, Response(call, t), []);
    FrameAt(be, tid, slave, Response(call, t), 0);
    assert rsp + [] == rsp && rsp[..|rsp|] == rsp;
    ConfirmIsPlain(be, tid, slave, call, t);
  }

  lemma RefusedIsFailed(call: Call, t: Tables)
    requires RefusedLocally(call)
    ensures Plain(call, t) == (Failed, t)
  {}

  /** One call over RTU or TCP bytes is the same call on plain arrays: always over TCP, and over RTU
      when the client names the server's own unit or the broadcast address. Any other unit might as
      well be absent. */
  lemma WireIsPlain(be: Backend, e: Ends, tid: word, call: Call, t: Tables, stale: seq<byte>)
    requires e.Valid() && t.Valid() && |stale| == MAX_MESSAGE_LENGTH
    ensures be.TCP? || e.client == e.server || e.client == 0 ==> Wire(be, e, tid, call, t, stale) == Plain(call, t)
    ensures be.RTU? && e.client != e.server && e.client != 0 ==> Wire(be, e, tid, call, t, stale) == (Failed, t)
  {
    hide Frame, Request, Response, Plain, Confirm, Receive, ReplyTo, RefusedLocally;
    if RefusedLocally(call) {
      RefusedIsFailed(call, t);
    } else {
      RequestServed(be, e, tid, call, t, stale);
      ResponseConfirmed(be, tid, e.client, call, t);
    }
  }

  lemma PlainKeepsValid(call: Call, t: Tables)
    requires t.Valid()
    ensures Plain(call, t).1.Valid()
    ensures Plain(call, t).0.Failed? ==> Plain(call, t).1 == t
  {
    hide Splice;
    if call.PutBits? && !Plain(call, t).0.Failed? {
      SpliceBinary(t.bits, Low16(call.addr), Normalized(call.bits));
    }
  }

  // ---------------------------------------------------------------- whole runs

  /** The transaction counter of the TCP client: incremented for every request built. */
  function NextTid(tid: word): word { if tid < 0xFFFF then tid + 1 else 0 }

  /** A run of calls over the wire; buffers[i] is what the server's buffer held before call i. */
  function WireRun(be: Backend, e: Ends, tid: word, calls: seq<Call>, t: Tables,
                   buffers: seq<seq<byte>>): (seq<Result>, Tables)
    requires e.Valid() && t.Valid() && |buffers| == |calls|
    requires forall i | 0 <= i < |buffers| :: |buffers[i]| == MAX_MESSAGE_LENGTH
    decreases |calls|
  {
    if calls == [] then ([], t)
    else
      var tid' := if RefusedLocally(calls[0]) then tid else NextTid(tid);
      var (r, t') := Wire(be, e, tid', calls[0], t, buffers[0]);
      WireIsPlain(be, e, tid', calls[0], t, buffers[0]);
      PlainKeepsValid(calls[0], t);
      var (rs, t'') := WireRun(be, e, tid', calls[1..], t', buffers[1..]);
      ([r] + rs, t'')
  }

  function PlainRun(calls: seq<Call>, t: Tables): (seq<Result>, Tables)
    decreases |calls|
  {
    if calls == [] then ([], t)
    else
      var (r, t') := Plain(calls[0], t);
      var (rs, t'') := PlainRun(calls[1..], t');
      ([r] + rs, t'')
  }

  /** Every sequence of calls, over RTU or TCP, from any transaction number and with any
      rubbish in the receive buffers, has the results and final tables of the plain machine; or all
      of them fail, over RTU and to a unit that is neither the server's nor the broadcast address. */
  lemma {:induction false} RunRefinesPlain(be: Backend, e: Ends, tid: word, calls: seq<Call>, t: Tables,
                                           buffers: seq<seq<byte>>)
    requires e.Valid() && t.Valid() && |buffers| == |calls|
    requires forall i | 0 <= i < |buffers| :: |buffers[i]| == MAX_MESSAGE_LENGTH
    ensures be.TCP? || e.client == e.server || e.client == 0 ==>
              WireRun(be, e, tid, calls, t, buffers) == PlainRun(calls, t)
    ensures be.RTU? && e.client != e.server && e.client != 0 ==>
              var (results, t') := WireRun(be, e, tid, calls, t, buffers);
              t' == t && |results| == |calls| && forall i | 0 <= i < |calls| :: results[i] == Failed
    decreases |calls|
  {
    hide Wire, Plain;
    if calls != [] {
      var tid' := if RefusedLocally(calls[0]) then tid else NextTid(tid);
      WireIsPlain(be, e, tid', calls[0], t, buffers[0]);
      PlainKeepsValid(calls[0], t);
      RunRefinesPlain(be, e, tid', calls[1..], Wire(be, e, tid', calls[0], t, buffers[0]).1, buffers[1..]);
    }
  }
}
