/** The bytes on the wire in plain numbers, as the MODBUS documents give them. Builder, server and
    response check share their constants and byte order with one another, but not with this module. */
module ModbusNumbers {
  import opened Bytes
  import opened ModbusBits
  import opened ModbusWire
  import opened ModbusServer
  import opened ModbusClient
  import opened ModbusRefinement
  import ModbusCrc

  /** Two bytes, the high one first. */
  function Big(s: seq<byte>, i: nat): int
    requires i + 1 < |s|
  {
    256 * (s[i] as int) + s[i + 1] as int
  }

  /** The function codes of chapter 6 of the application protocol. */
  function Code(call: Call): int {
    match call
    case GetBits(_, _) => 1
    case GetInputBits(_, _) => 2
    case GetRegisters(_, _) => 3
    case GetInputRegisters(_, _) => 4
    case PutBit(_, _) => 5
    case PutRegister(_, _) => 6
    case PutBits(_, _) => 15
    case PutRegisters(_, _) => 16
    case PutGetRegisters(_, _, _, _) => 23
  }

  // ---------------------------------------------------------------- requests

  /** Address and quantity, or value, of a request. */
  function Fields(call: Call): (int, int) {
    match call
    case GetBits(addr, nb) => (addr, nb)
    case GetInputBits(addr, nb) => (addr, nb)
    case GetRegisters(addr, nb) => (addr, nb)
    case GetInputRegisters(addr, nb) => (addr, nb)
    case PutBit(addr, on) => (addr, if on then 65280 else 0)
    case PutRegister(addr, value) => (addr, value)
    case PutBits(addr, bits) => (addr, |bits|)
    case PutRegisters(addr, regs) => (addr, |regs|)
    case PutGetRegisters(_, _, readAddr, nb) => (readAddr, nb)
  }

  lemma BigOfHiLo(x: int)
    ensures 256 * Hi(x) + Lo(x) == x % 65536
  {}

  lemma RequestHeadInNumbers(call: Call)
    requires !RefusedLocally(call)
    ensures var p := Request(call);
            |p| >= 5 && p[0] == Code(call)
            && Big(p, 1) == Fields(call).0 % 65536 && Big(p, 3) == Fields(call).1 % 65536
  {
    hide Packed, RegisterBytes, Normalized, Hi, Lo;
    BigOfHiLo(Fields(call).0);
    BigOfHiLo(Fields(call).1);
  }

  /** Behind the head, coils: a byte count, and eight coils a byte, the first in the lowest bit. */
  lemma CoilsInNumbers(call: Call, i: nat)
    requires !RefusedLocally(call) && call.PutBits?
    ensures var p, bits := Request(call), call.bits;
            && |p| == 6 + (|bits| + 7) / 8 && p[5] == (|bits| + 7) / 8
            && (i < |bits| ==> p[6 + i / 8] / Weight(i % 8) % 2 == if bits[i] != 0 then 1 else 0)
  {
    hide Packed, Hi, Lo, Weight;
    var bits := Normalized(call.bits);
    if i < |bits| {
      PackedInNumbers(bits, i);
      assert Request(call)[6 + i / 8] == Packed(bits)[i / 8];
    }
  }

  /** Registers: a byte count, and every register high byte first. */
  lemma RegistersInNumbers(call: Call, i: nat)
    requires !RefusedLocally(call) && call.PutRegisters?
    ensures var p, regs := Request(call), call.regs;
            |p| == 6 + 2 * |regs| && p[5] == 2 * |regs| && (i < |regs| ==> Big(p, 6 + 2 * i) == regs[i])
  {
    hide RegisterBytes, Hi, Lo;
    if i < |call.regs| { RegisterInNumbers(call.regs, i); }
  }

  /** Write-and-read: the part to be read stands in the head, the part to be written behind it. */
  lemma PutGetInNumbers(call: Call, i: nat)
    requires !RefusedLocally(call) && call.PutGetRegisters?
    ensures var p, regs := Request(call), call.regs;
            && |p| == 10 + 2 * |regs| && p[9] == 2 * |regs|
            && Big(p, 5) == call.writeAddr % 65536 && Big(p, 7) == |regs|
            && (i < |regs| ==> Big(p, 10 + 2 * i) == regs[i])
  {
    hide RegisterBytes, Hi, Lo;
    BigOfHiLo(call.writeAddr);
    BigOfHiLo(|call.regs|);
    if i < |call.regs| { RegisterInNumbers(call.regs, i); }
  }

  function Weight(k: nat): (w: int)
    requires k < 8
    ensures w > 0
  {
    [1, 2, 4, 8, 16, 32, 64, 128][k]
  }

  lemma BitInNumbers(v: nat, k: nat)
    requires k < 8
    ensures Bit(v, k) == v / Weight(k) % 2
  {
    hide Weight;
    if k > 0 {
      BitInNumbers(v / 2, k - 1);
      Halved(v, k - 1);
    } else {
      assert Weight(0) == 1 by { FirstWeight(); }
    }
  }

  lemma FirstWeight()
    ensures Weight(0) == 1
  {}

  lemma Halved(v: nat, k: nat)
    requires k < 7
    ensures v / 2 / Weight(k) == v / Weight(k + 1)
  {
    match k
    case 0 => case 1 => case 2 => case 3 => case 4 => case 5 => case _ =>
  }

  lemma PackedInNumbers(bits: seq<byte>, i: nat)
    requires Binary(bits) && i < |bits|
    ensures |Packed(bits)| == (|bits| + 7) / 8 && Packed(bits)[i / 8] / Weight(i % 8) % 2 == bits[i]
  {
    hide Packed, Bit, Weight;
    UnpackPacked(bits);
    BitInNumbers(Packed(bits)[i / 8], i % 8);
    assert Unpacked(Packed(bits), |bits|)[i] == BitAt(Packed(bits), i);
  }

  lemma RegisterInNumbers(regs: seq<word>, i: nat)
    requires i < |regs|
    ensures |RegisterBytes(regs)| == 2 * |regs| && Big(RegisterBytes(regs), 2 * i) == regs[i]
  {
    hide RegisterBytes;
    RegistersOfBytes(regs);
    assert Registers(RegisterBytes(regs), |regs|)[i] == At16(RegisterBytes(regs), 2 * i);
  }

  // ---------------------------------------------------------------- what the server refuses

  /** Exception 3 for a quantity out of its limits, else 2 for an address beyond the table, and no
      other refusal, for the requests that name a quantity. */
  lemma QuantityInNumbers(b: seq<byte>, t: Tables, version: seq<byte>)
    requires |b| >= PDU_BUFFER && t.Valid() && |version| <= 200
    requires b[0] in {1, 2, 3, 4, 15, 16}
    ensures var nb, end := Big(b, 3), Big(b, 1) + Big(b, 3);
            var max := match b[0] case 1 => 2000 case 2 => 2000 case 15 => 1968 case 16 => 123 case _ => 125;
            var size := match b[0] case 1 => |t.bits| case 2 => |t.inputBits| case 4 => |t.inputRegs|
                                   case 15 => |t.bits| case _ => |t.regs|;
            var a := Serve(b, t, version);
            && (nb < 1 || nb > max ==> a == Answer([b[0] + 128, 3], t))
            && (1 <= nb <= max && end > size ==> a == Answer([b[0] + 128, 2], t))
            && (1 <= nb <= max && end <= size ==> a.Answer? && |a.pdu| >= 2 && a.pdu[0] == b[0])
  {
    hide Packed, RegisterBytes, Unpacked, Registers, Splice, WriteAndRead;
    if b[0] == 15 { hide WriteRegisters, ReadBits, ReadRegisters; }
    if b[0] == 16 { hide WriteCoils, ReadBits, ReadRegisters; }
  }

  /** The same for single writes, for write-and-read, and for unknown function codes. */
  lemma RefusalInNumbers(b: seq<byte>, t: Tables, version: seq<byte>)
    requires |b| >= PDU_BUFFER && t.Valid() && |version| <= 200
    ensures var a := Serve(b, t, version);
            match b[0]
            case 5 =>
              if Big(b, 1) >= |t.bits| then a == Answer([133, 2], t)
              else if Big(b, 3) == 65280 then a == Echo(t.(bits := t.bits[Big(b, 1) := 1]))
              else if Big(b, 3) == 0 then a == Echo(t.(bits := t.bits[Big(b, 1) := 0]))
              else a == Answer([133, 3], t)
            case 6 =>
              if Big(b, 1) >= |t.regs| then a == Answer([134, 2], t)
              else a == Echo(t.(regs := t.regs[Big(b, 1) := Big(b, 3)]))
            case 23 =>
              if Big(b, 7) < 1 || Big(b, 7) > 121 || Big(b, 3) < 1 || Big(b, 3) > 125 || b[9] != 2 * Big(b, 7)
              then a == Answer([151, 3], t)
              else if Big(b, 1) + Big(b, 3) > |t.regs| || Big(b, 5) + Big(b, 7) > |t.regs|
              then a == Answer([151, 2], t)
              else a.Answer? && |a.pdu| == 2 + 2 * Big(b, 3) && a.pdu[0] == 23 && a.pdu[1] == 2 * Big(b, 3)
            case 7 => a == Silent
            case 17 => a.Answer? && a.tables == t && a.pdu == [17, 5 + |version|, 180, 255, 76, 77, 66] + version
            case f => !(f in {1, 2, 3, 4, 15, 16}) ==> a == Answer([(f + 128) % 256, 1], t)
  {
    hide Packed, RegisterBytes, Registers, Splice, ReadBits, ReadRegisters, WriteCoils, WriteRegisters;
  }

  /** A request is met with silence exactly when it is for another unit on a serial line, or asks
      for the exception status. */
  lemma WhoIsAnswered(be: Backend, own: int, req: seq<byte>, n: nat, t: Tables, version: seq<byte>)
    requires |req| == MAX_MESSAGE_LENGTH && t.Valid() && |version| <= 200
    requires be.HeaderLength() + 1 + be.ChecksumLength() <= n <= |req|
    ensures ReplyTo(be, own, req, n, t, version) == Quiet(t) <==>
            (be.RTU? && req[0] != own && req[0] != 0) || req[if be.RTU? then 1 else 7] == 7
  {
    hide SendMsgPre, ReadBits, ReadRegisters, WriteCoil, WriteRegister, WriteCoils, WriteRegisters, WriteAndRead;
    if be.RTU? { WhatIsAnswered(req[1..], t, version); } else { WhatIsAnswered(req[7..], t, version); }
  }

  lemma WhatIsAnswered(b: seq<byte>, t: Tables, version: seq<byte>)
    requires |b| >= PDU_BUFFER && t.Valid() && |version| <= 200
    ensures Serve(b, t, version) == Silent <==> b[0] == 7
    ensures Serve(b, t, version).Answer? ==> Serve(b, t, version).pdu != []
  {
    hide Packed, RegisterBytes, Unpacked, Registers, Splice;
  }

  // ---------------------------------------------------------------- frames

  /** The MBAP header: transaction, protocol 0, the number of bytes that follow, unit. A serial
      frame: unit, and the CRC behind the data. */
  lemma FrameInNumbers(be: Backend, tid: word, slave: byte, pdu: seq<byte>)
    requires pdu != [] && |pdu| <= 253
    ensures var f := Frame(be, tid, slave, pdu);
            if be.TCP?
            then |f| == 7 + |pdu| && Big(f, 0) == tid && Big(f, 2) == 0 && Big(f, 4) == |f| - 6 && f[6] == slave
                 && f[7..] == pdu
            else |f| == 3 + |pdu| && f[0] == slave && f[1..1 + |pdu|] == pdu
  {
    hide CrcBytes, Hi, Lo;
    BigOfHiLo(tid);
    BigOfHiLo(1 + |pdu|);
    var f := Frame(be, tid, slave, pdu);
    if be.TCP? { assert f[7..] == pdu; } else { assert f[1..1 + |pdu|] == pdu; }
  }

  /** The CRC of the request of unit 1 for ten registers from 0 on: C5, then CD. */
  lemma CrcExample()
    ensures ModbusCrc.Sealed([1, 3, 0, 0, 0, 10]) == [1, 3, 0, 0, 0, 10, 0xC5, 0xCD]
  {
    hide ModbusCrc.BitCrc, ModbusCrc.Shift8, ModbusCrc.Xor, ModbusCrc.Widen;
    FirstSteps();
    LastSteps();
    var m6: seq<bv8> := [];
    var m5: seq<bv8> := [10] + m6;
    var m4, m3, m2 := [0] + m5, [0] + ([0] + m5), [0] + ([0] + ([0] + m5));
    var m1: seq<bv8> := [3] + m2;
    CrcStep(0xFFFF, 0x807E, 1, m1);
    CrcStep(0x807E, 0x2140, 3, m2);
    CrcStep(0x2140, 0xF020, 0, m3);
    CrcStep(0xF020, 0xD8F1, 0, m4);
    CrcStep(0xD8F1, 0x8419, 0, m5);
    CrcStep(0x8419, 0xCDC5, 10, m6);
    CrcOrder();
    assert [1] + m1 == [1, 3, 0, 0, 0, 10];
  }

  lemma CrcOrder()
    ensures ModbusCrc.First(0xCDC5) == 0xC5 && ModbusCrc.Second(0xCDC5) == 0xCD
  {}

  lemma CrcStep(c: bv16, next: bv16, b: bv8, rest: seq<bv8>)
    requires ModbusCrc.Shift8(ModbusCrc.Xor(c, ModbusCrc.Widen(b))) == next
    ensures ModbusCrc.BitCrc(c, [b] + rest) == ModbusCrc.BitCrc(next, rest)
    ensures ModbusCrc.BitCrc(next, []) == next
  {
    hide ModbusCrc.Shift8, ModbusCrc.Xor, ModbusCrc.Widen;
    assert ([b] + rest)[1..] == rest;
  }

  lemma FirstSteps()
    ensures ModbusCrc.Shift8(ModbusCrc.Xor(0xFFFF, ModbusCrc.Widen(1))) == 0x807E
    ensures ModbusCrc.Shift8(ModbusCrc.Xor(0x807E, ModbusCrc.Widen(3))) == 0x2140
    ensures ModbusCrc.Shift8(ModbusCrc.Xor(0x2140, ModbusCrc.Widen(0))) == 0xF020
  {}

  lemma LastSteps()
    ensures ModbusCrc.Shift8(ModbusCrc.Xor(0xF020, ModbusCrc.Widen(0))) == 0xD8F1
    ensures ModbusCrc.Shift8(ModbusCrc.Xor(0xD8F1, ModbusCrc.Widen(0))) == 0x8419
    ensures ModbusCrc.Shift8(ModbusCrc.Xor(0x8419, ModbusCrc.Widen(10))) == 0xCDC5
  {}

  // ---------------------------------------------------------------- what the client refuses

  /** The number of values a response must confirm: bytes for coils, else registers or cells. */
  function Confirmed(call: Call): int {
    match call
    case GetBits(_, nb) => (nb + 7) / 8
    case GetInputBits(_, nb) => (nb + 7) / 8
    case PutBit(_, _) => 1
    case PutRegister(_, _) => 1
    case _ => Fields(call).1
  }

  /** The length of the response, function code and data. */
  function Answered(call: Call): int {
    match call
    case GetBits(_, nb) => 2 + (nb + 7) / 8
    case GetInputBits(_, nb) => 2 + (nb + 7) / 8
    case GetRegisters(_, nb) => 2 + 2 * nb
    case GetInputRegisters(_, nb) => 2 + 2 * nb
    case PutGetRegisters(_, _, _, nb) => 2 + 2 * nb
    case _ => 5
  }

  /** The count a response states for itself. */
  function Stated(call: Call, pdu: seq<byte>): int
    requires |pdu| >= 5 || (|pdu| >= 2 && !call.PutBits? && !call.PutRegisters?)
  {
    match call
    case GetBits(_, _) => pdu[1]
    case GetInputBits(_, _) => pdu[1]
    case PutBit(_, _) => 1
    case PutRegister(_, _) => 1
    case PutBits(_, _) => Big(pdu, 3)
    case PutRegisters(_, _) => Big(pdu, 3)
    case _ => pdu[1] / 2
  }

  /** Whatever bytes come back: they are accepted if and only if they carry the transaction number
      of the request (over TCP), have the length it calls for, repeat its function code and state the
      count it asked for; everything else, an exception too, gives -1. */
  lemma ConfirmInNumbers(be: Backend, tid: word, slave: byte, call: Call, rsp: seq<byte>)
    requires !RefusedLocally(call) && |rsp| >= be.HeaderLength() + 2
    ensures var req, h := Frame(be, tid, slave, Request(call)), if be.TCP? then 7 else 1;
            && |req| >= be.HeaderLength() + 5
            && CheckConfirmation(be, req, rsp) ==
               if && (be.TCP? ==> Big(rsp, 0) == tid)
                  && |rsp| == h + Answered(call) + (if be.TCP? then 0 else 2)
                  && rsp[h] == Code(call)
                  && Stated(call, rsp[h..]) == Confirmed(call)
               then Confirmed(call) else -1
  {
    hide Frame, Request, ResponseLength, MatchedCount, Answered, Stated, Confirmed, Code;
    var req, h := Frame(be, tid, slave, Request(call)), be.HeaderLength();
    RequestQuantity(be, tid, slave, call);
    Transaction(be, tid, slave, Request(call), rsp);
    LengthInNumbers(be, tid, slave, call);
    if ResponseLength(be, req) == |rsp| { CountInNumbers(be, tid, slave, call, rsp); }
  }

  lemma LengthInNumbers(be: Backend, tid: word, slave: byte, call: Call)
    requires !RefusedLocally(call)
    ensures var req := Frame(be, tid, slave, Request(call));
            |req| >= be.HeaderLength() + 5
            && ResponseLength(be, req) == be.HeaderLength() + Answered(call) + be.ChecksumLength()
            && ResponseLength(be, req) != LENGTH_UNDEFINED
  {
    hide Frame, Request;
    RequestQuantity(be, tid, slave, call);
  }

  lemma CountInNumbers(be: Backend, tid: word, slave: byte, call: Call, rsp: seq<byte>)
    requires !RefusedLocally(call)
    requires |rsp| == be.HeaderLength() + Answered(call) + be.ChecksumLength()
    ensures var req, h := Frame(be, tid, slave, Request(call)), be.HeaderLength();
            && |req| >= h + 5 && ResponseLength(be, req) == |rsp| >= h + 2
            && MatchedCount(be, req, rsp) ==
               if rsp[h] == Code(call) && Stated(call, rsp[h..]) == Confirmed(call) then Confirmed(call) else -1
  {
    hide Frame, Request, ResponseLength, MatchedCount, FunctionOf, At16;
    LengthInNumbers(be, tid, slave, call);
    RequestQuantity(be, tid, slave, call);
    CodeIs(call);
    MatchedInNumbers(be, Frame(be, tid, slave, Request(call)), rsp, Low16(Fields(call).1));
    Low16Small(if call.PutBit? || call.PutRegister? then 0 else Fields(call).1);
    var h := be.HeaderLength();
    assert rsp[h..][1] == rsp[h + 1];
    if |rsp| >= h + 5 { assert rsp[h..][3] == rsp[h + 3] && rsp[h..][4] == rsp[h + 4]; }
  }

  lemma CodeIs(call: Call)
    ensures FunctionOf(call) == Code(call)
  {}

  lemma MatchedInNumbers(be: Backend, req: seq<byte>, rsp: seq<byte>, nb: nat)
    requires |req| >= be.HeaderLength() + 5 && |rsp| >= be.HeaderLength() + 2
    requires ResponseLength(be, req) == |rsp| && At16(req, be.HeaderLength() + 3) == nb
    ensures var h := be.HeaderLength();
            var f := req[h];
            && (rsp[h] != f ==> MatchedCount(be, req, rsp) == -1)
            && (rsp[h] == f && f in {1, 2} ==>
                  MatchedCount(be, req, rsp) == if rsp[h + 1] == (nb + 7) / 8 then (nb + 7) / 8 else -1)
            && (rsp[h] == f && f in {3, 4, 23} ==>
                  MatchedCount(be, req, rsp) == if rsp[h + 1] / 2 == nb then nb else -1)
            && (rsp[h] == f && f in {15, 16} ==>
                  |rsp| >= h + 5 && MatchedCount(be, req, rsp) == if Big(rsp, h + 3) == nb then nb else -1)
            && (rsp[h] == f && f in {5, 6} ==> MatchedCount(be, req, rsp) == 1)
  {}

  lemma Transaction(be: Backend, tid: word, slave: byte, pdu: seq<byte>, rsp: seq<byte>)
    requires pdu != [] && |rsp| >= 2
    ensures var req := Frame(be, tid, slave, pdu);
            be.TCP? ==> |req| >= 2 && (req[0] == rsp[0] && req[1] == rsp[1] <==> Big(rsp, 0) == tid)
  {
    hide Frame, CheckIntegrity;
    FrameLayout(be, tid, slave, pdu);
  }

  // ---------------------------------------------------------------- what the receiver takes

  /** How many bytes the receiver takes before it knows the length of a request or a response, function
      code included. */
  function KnownAt(kind: MsgType, f: byte): int {
    if kind.Indication? then (if f <= 6 then 5 else if f in {15, 16} then 6 else if f == 23 then 10 else 1)
    else (if f in {5, 6, 15, 16} then 5 else 2)
  }

  /** The length of a message by its function code and, where it carries values, its byte count. */
  function Announced(kind: MsgType, pdu: seq<byte>): int
    requires pdu != [] && |pdu| >= KnownAt(kind, pdu[0])
  {
    var f := pdu[0];
    KnownAt(kind, f) + (if kind.Indication?
                        then (if f in {15, 16} then pdu[5] as int else if f == 23 then pdu[9] as int else 0)
                        else if f <= 4 || f in {17, 23} then pdu[1] as int else 0)
  }

  /** Every message, for every function code, known or not: taken at its announced length with the
      checksum behind it, checked then, and refused if it would pass 256 bytes over RTU or 260 over
      TCP. */
  lemma ReceiveInNumbers(be: Backend, kind: MsgType, stream: seq<byte>)
    ensures var h := if be.TCP? then 7 else 1;
            var r := Receive(be, kind, stream);
            if |stream| < h + 1 || |stream| < h + KnownAt(kind, stream[h]) then r == Starved
            else
              var n := h + Announced(kind, stream[h..]) + (if be.TCP? then 0 else 2);
              if n > (if be.TCP? then 260 else 256) then r == TooManyData(h + KnownAt(kind, stream[h]))
              else if |stream| < n then r == Starved
              else n >= 2 && r == if CheckIntegrity(be, stream[..n]) then Received(n) else BadCrc(n)
  {
    hide CheckIntegrity, MetaLength, DataLength, KnownAt, Announced;
    var h := be.HeaderLength();
    if |stream| >= h + 1 {
      KnownInNumbers(kind, stream[h]);
      if |stream| >= h + KnownAt(kind, stream[h]) {
        LengthInNumbersOf(kind, stream[h..h + KnownAt(kind, stream[h])], stream[h..]);
      }
    }
  }

  lemma KnownInNumbers(kind: MsgType, f: byte)
    ensures KnownAt(kind, f) == 1 + MetaLength(f, kind)
  {}

  lemma LengthInNumbersOf(kind: MsgType, head: seq<byte>, pdu: seq<byte>)
    requires pdu != [] && |pdu| >= KnownAt(kind, pdu[0]) && head == pdu[..KnownAt(kind, pdu[0])]
    ensures 1 + MetaLength(pdu[0], kind) == |head| && head[0] == pdu[0]
    ensures KnownAt(kind, pdu[0]) + DataLength(head, kind) == Announced(kind, pdu)
  {}

  // ---------------------------------------------------------------- the examples of chapter 6

  /** Coils 20 to 38 as the application protocol packs them: CD 6B 05. */
  lemma CoilsExample()
    ensures Packed([1, 0, 1, 1, 0, 0, 1, 1, 1, 1, 0, 1, 0, 1, 1, 0, 1, 0, 1]) == [0xCD, 0x6B, 0x05]
  {
    hide BitsValue;
    var bits: seq<byte> := [1, 0, 1, 1, 0, 0, 1, 1, 1, 1, 0, 1, 0, 1, 1, 0, 1, 0, 1];
    assert Group(bits, 0) == [1, 0, 1, 1, 0, 0, 1, 1];
    assert Group(bits, 1) == [1, 1, 0, 1, 0, 1, 1, 0];
    assert Group(bits, 2) == [1, 0, 1];
    EightBits([1, 0, 1, 1, 0, 0, 1, 1]);
    EightBits([1, 1, 0, 1, 0, 1, 1, 0]);
    ThreeBits([1, 0, 1]);
  }

  function Num(b: seq<byte>, i: nat): int
    requires i < |b|
  {
    b[i]
  }

  lemma FrontBit(b: seq<byte>, i: nat)
    requires i < |b|
    ensures BitsValue(b[i..]) == Num(b, i) + 2 * BitsValue(b[i + 1..]) && BitsValue(b[|b|..]) == 0
  {
    assert b[i..][1..] == b[i + 1..];
  }

  lemma ThreeBits(b: seq<byte>)
    requires |b| == 3
    ensures BitsValue(b) == Num(b, 0) + 2 * Num(b, 1) + 4 * Num(b, 2)
  {
    hide BitsValue;
    FrontBit(b, 0); FrontBit(b, 1); FrontBit(b, 2);
    assert b[0..] == b;
  }

  lemma EightBits(b: seq<byte>)
    requires |b| == 8
    ensures BitsValue(b) == Num(b, 0) + 2 * Num(b, 1) + 4 * Num(b, 2) + 8 * Num(b, 3) + 16 * Num(b, 4)
                            + 32 * Num(b, 5) + 64 * Num(b, 6) + 128 * Num(b, 7)
  {
    hide BitsValue, Num;
    FrontBit(b, 0); FrontBit(b, 1); FrontBit(b, 2); FrontBit(b, 3);
    FrontBit(b, 4); FrontBit(b, 5); FrontBit(b, 6); FrontBit(b, 7);
    assert b[0..] == b;
  }

  // ---------------------------------------------------------------- writing and reading the plain arrays

  /** What is written is what is read afterwards, and nothing else is touched. */
  lemma WrittenBitsRead(addr: int, bits: seq<byte>, t: Tables, k: nat)
    requires t.Valid() && k < |t.bits| && !Plain(PutBits(addr, bits), t).0.Failed?
    ensures var at, t' := addr % 65536, Plain(PutBits(addr, bits), t).1;
            && Plain(GetBits(addr, |bits|), t').0.Bits?
            && |Plain(GetBits(addr, |bits|), t').0.bits| == |bits|
            && |t'.bits| == |t.bits|
            && (at <= k < at + |bits| ==>
                  t'.bits[k] == Plain(GetBits(addr, |bits|), t').0.bits[k - at] == if bits[k - at] != 0 then 1 else 0)
            && (!(at <= k < at + |bits|) ==> t'.bits[k] == t.bits[k])
  {
    hide Splice, Normalized;
    var at, t' := addr % 65536, Plain(PutBits(addr, bits), t).1;
    assert t'.bits[at..at + |bits|] == Normalized(bits);
    if at <= k < at + |bits| { assert t'.bits[at..at + |bits|][k - at] == t'.bits[k]; }
  }

  /** Write-and-read is the write followed by the read, or neither. */
  lemma PutGetIsPutThenGet(writeAddr: int, regs: seq<word>, readAddr: int, nb: nat, t: Tables)
    requires |regs| <= 121
    ensures var both := Plain(PutGetRegisters(writeAddr, regs, readAddr, nb), t);
            var (put, t') := Plain(PutRegisters(writeAddr, regs), t);
            both == if put.Failed? || Plain(GetRegisters(readAddr, nb), t).0.Failed? then (Failed, t)
                    else Plain(GetRegisters(readAddr, nb), t')
  {}

  lemma WrittenRegistersRead(addr: int, regs: seq<word>, t: Tables)
    requires !Plain(PutRegisters(addr, regs), t).0.Failed?
    ensures Plain(GetRegisters(addr, |regs|), Plain(PutRegisters(addr, regs), t).1).0 == Regs(regs)
  {}
}
