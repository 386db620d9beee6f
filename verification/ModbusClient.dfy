/** The client half, and the refinement: a call that travels as bytes to the server and back
    has the effect of the same call on plain arrays. */
module ModbusClient {
  import opened Bytes
  import opened ModbusBits
  import opened ModbusWire
  import opened ModbusServer

  /** The public client calls. Addresses and single values are C ints; the wire carries their
      low 16 bits. */
  datatype Call =
    | GetBits(addr: int, nb: nat)
    | GetInputBits(addr: int, nb: nat)
    | GetRegisters(addr: int, nb: nat)
    | GetInputRegisters(addr: int, nb: nat)
    | PutBit(addr: int, on: bool)
    | PutRegister(addr: int, value: int)
    | PutBits(addr: int, bits: seq<byte>)
    | PutRegisters(addr: int, regs: seq<word>)
    | PutGetRegisters(writeAddr: int, regs: seq<word>, readAddr: int, nb: nat)

  datatype Result = Failed | Bits(bits: seq<byte>) | Regs(regs: seq<word>) | Done(count: nat)

  function Low16(x: int): word { x % 0x1_0000 }

  // ---------------------------------------------------------------- the plain array machine

  predicate Within(addr: int, nb: nat, max: nat, size: nat) {
    1 <= nb <= max && Low16(addr) + nb <= size
  }

  /** The reference: what a call means on four arrays, with the limits of the protocol. */
  function Plain(call: Call, t: Tables): (Result, Tables) {
    match call
    case GetBits(addr, nb) =>
      if !Within(addr, nb, MAX_READ_BITS, |t.bits|) then (Failed, t)
      else (Bits(t.bits[Low16(addr)..Low16(addr) + nb]), t)
    case GetInputBits(addr, nb) =>
      if !Within(addr, nb, MAX_READ_BITS, |t.inputBits|) then (Failed, t)
      else (Bits(t.inputBits[Low16(addr)..Low16(addr) + nb]), t)
    case GetRegisters(addr, nb) =>
      if !Within(addr, nb, MAX_READ_REGISTERS, |t.regs|) then (Failed, t)
      else (Regs(t.regs[Low16(addr)..Low16(addr) + nb]), t)
    case GetInputRegisters(addr, nb) =>
      if !Within(addr, nb, MAX_READ_REGISTERS, |t.inputRegs|) then (Failed, t)
      else (Regs(t.inputRegs[Low16(addr)..Low16(addr) + nb]), t)
    case PutBit(addr, on) =>
      if Low16(addr) >= |t.bits| then (Failed, t)
      else (Done(1), t.(bits := t.bits[Low16(addr) := if on then 1 else 0]))
    case PutRegister(addr, value) =>
      if Low16(addr) >= |t.regs| then (Failed, t)
      else (Done(1), t.(regs := t.regs[Low16(addr) := Low16(value)]))
    case PutBits(addr, bits) =>
      if !Within(addr, |bits|, MAX_WRITE_BITS, |t.bits|) then (Failed, t)
      else (Done(|bits|), t.(bits := Splice(t.bits, Low16(addr), Normalized(bits))))
    case PutRegisters(addr, regs) =>
      if !Within(addr, |regs|, MAX_WRITE_REGISTERS, |t.regs|) then (Failed, t)
      else (Done(|regs|), t.(regs := Splice(t.regs, Low16(addr), regs)))
    case PutGetRegisters(writeAddr, regs, readAddr, nb) =>
      if !Within(writeAddr, |regs|, MAX_RW_WRITE_REGISTERS, |t.regs|)
        || !Within(readAddr, nb, MAX_READ_REGISTERS, |t.regs|)
      then (Failed, t)
      else
        var written := Splice(t.regs, Low16(writeAddr), regs);
        (Regs(written[Low16(readAddr)..Low16(readAddr) + nb]), t.(regs := written))
  }

  // ---------------------------------------------------------------- requests

  function Basis(functionCode: byte, addr: int, nb: int): (pdu: seq<byte>)
    ensures |pdu| == 5
  {
    [functionCode, Hi(addr), Lo(addr), Hi(nb), Lo(nb)]
  }

  /** Calls the client refuses itself, with EMBMDATA and without touching the line. */
  predicate RefusedLocally(call: Call) {
    match call
    case GetBits(_, nb) => nb > MAX_READ_BITS
    case GetInputBits(_, nb) => nb > MAX_READ_BITS
    case GetRegisters(_, nb) => nb > MAX_READ_REGISTERS
    case GetInputRegisters(_, nb) => nb > MAX_READ_REGISTERS
    case PutBit(_, _) => false
    case PutRegister(_, _) => false
    case PutBits(_, bits) => |bits| > MAX_WRITE_BITS
    case PutRegisters(_, regs) => |regs| > MAX_WRITE_REGISTERS
    case PutGetRegisters(_, regs, _, nb) => |regs| > MAX_RW_WRITE_REGISTERS || nb > MAX_READ_REGISTERS
  }

  function FunctionOf(call: Call): byte {
    match call
    case GetBits(_, _) => FC_READ_COILS
    case GetInputBits(_, _) => FC_READ_DISCRETE_INPUTS
    case GetRegisters(_, _) => FC_READ_HOLDING_REGISTERS
    case GetInputRegisters(_, _) => FC_READ_INPUT_REGISTERS
    case PutBit(_, _) => FC_WRITE_SINGLE_COIL
    case PutRegister(_, _) => FC_WRITE_SINGLE_REGISTER
    case PutBits(_, _) => FC_WRITE_MULTIPLE_COILS
    case PutRegisters(_, _) => FC_WRITE_MULTIPLE_REGISTERS
    case PutGetRegisters(_, _, _, _) => FC_WRITE_AND_READ_REGISTERS
  }

  /** The data unit a call sends. */
  function Request(call: Call): (pdu: seq<byte>)
    requires !RefusedLocally(call)
    ensures |pdu| >= 5 && pdu[0] == FunctionOf(call)
  {
    var f := FunctionOf(call);
    match call
    case GetBits(addr, nb) => Basis(f, addr, nb)
    case GetInputBits(addr, nb) => Basis(f, addr, nb)
    case GetRegisters(addr, nb) => Basis(f, addr, nb)
    case GetInputRegisters(addr, nb) => Basis(f, addr, nb)
    case PutBit(addr, on) => Basis(f, addr, if on then 0xFF00 else 0)
    case PutRegister(addr, value) => Basis(f, addr, value)
    case PutBits(addr, bits) => Basis(f, addr, |bits|) + [ByteCount(|bits|)] + Packed(Normalized(bits))
    case PutRegisters(addr, regs) => Basis(f, addr, |regs|) + [2 * |regs|] + RegisterBytes(regs)
    case PutGetRegisters(writeAddr, regs, readAddr, nb) =>
      Basis(f, readAddr, nb) + [Hi(writeAddr), Lo(writeAddr), Hi(|regs|), Lo(|regs|), 2 * |regs|] + RegisterBytes(regs)
  }

  // ---------------------------------------------------------------- checking the response

  const LENGTH_UNDEFINED := -1

  /** compute_response_length_from_request */
  function ResponseLength(be: Backend, req: seq<byte>): int
    requires |req| >= be.HeaderLength() + 5
  {
    var h := be.HeaderLength();
    var f := req[h];
    var nb := At16(req, h + 3);
    if f == FC_REPORT_SLAVE_ID then LENGTH_UNDEFINED
    else
      h + be.ChecksumLength() +
      (if f == FC_READ_COILS || f == FC_READ_DISCRETE_INPUTS then 2 + ByteCount(nb)
       else if f == FC_WRITE_AND_READ_REGISTERS || f == FC_READ_HOLDING_REGISTERS || f == FC_READ_INPUT_REGISTERS
       then 2 + 2 * nb
       else if f == FC_READ_EXCEPTION_STATUS then 3
       else 5)
  }

  /** The comparison of quantities in check_confirmation: -1, or the number of values. */
  function MatchedCount(be: Backend, req: seq<byte>, rsp: seq<byte>): int
    requires |req| >= be.HeaderLength() + 5 && |rsp| >= be.HeaderLength() + 2
    requires ResponseLength(be, req) == |rsp| || ResponseLength(be, req) == LENGTH_UNDEFINED
  {
    var h := be.HeaderLength();
    var f := rsp[h];
    if f != req[h] then -1
    else
      var nb := At16(req, h + 3);
      var (asked: int, got: int) :=
        if f == FC_READ_COILS || f == FC_READ_DISCRETE_INPUTS then (ByteCount(nb), rsp[h + 1])
        else if f == FC_WRITE_AND_READ_REGISTERS || f == FC_READ_HOLDING_REGISTERS || f == FC_READ_INPUT_REGISTERS then
          (nb, rsp[h + 1] / 2)
        else if f == FC_WRITE_MULTIPLE_COILS || f == FC_WRITE_MULTIPLE_REGISTERS then (nb, At16(rsp, h + 3))
        else if f == FC_REPORT_SLAVE_ID then (rsp[h + 1], rsp[h + 1])
        else (1, 1);
      if asked == got then got else -1
  }

  /** check_confirmation, with the TCP transaction check first. */
  function CheckConfirmation(be: Backend, req: seq<byte>, rsp: seq<byte>): int
    requires |req| >= be.HeaderLength() + 5 && |rsp| >= be.HeaderLength() + 2
  {
    if be.TCP? && (req[0] != rsp[0] || req[1] != rsp[1]) then -1
    else if ResponseLength(be, req) == |rsp| || ResponseLength(be, req) == LENGTH_UNDEFINED
    then MatchedCount(be, req, rsp)
    else -1
  }

  /** What the client makes of a received response: -1 becomes Failed. */
  function Confirm(be: Backend, call: Call, req: seq<byte>, rsp: seq<byte>): Result
    requires |req| >= be.HeaderLength() + 5 && |rsp| >= be.HeaderLength() + 2
  {
    var rc := CheckConfirmation(be, req, rsp);
    var data := rsp[be.HeaderLength() + 2..];
    if rc == -1 then Failed
    else if call.GetBits? || call.GetInputBits? then
      if 0 <= rc <= |data| && call.nb <= 8 * rc then Bits(Unpacked(data[..rc], call.nb)) else Failed
    else if call.GetRegisters? || call.GetInputRegisters? || call.PutGetRegisters? then
      if 0 <= rc && 2 * rc <= |data| then Regs(Registers(data, rc)) else Failed
    else if rc >= 0 then Done(rc) else Failed
  }

  // ---------------------------------------------------------------- a call over the wire

  /** The unit identifiers and library version of the two ends. */
  datatype Ends = Ends(client: byte, server: int, version: seq<byte>) {
    predicate Valid() { |version| <= 200 }
  }

  /** A receive buffer whose first bytes are the message; the rest is left from before. */
  predicate Holds(buffer: seq<byte>, msg: seq<byte>) {
    |buffer| == MAX_MESSAGE_LENGTH && |msg| <= |buffer| && buffer[..|msg|] == msg
  }

  /** One call end to end, through bytes only: build, seal, receive, reply, receive, check.
      `stale` is what the server's receive buffer held before. */
  function Wire(be: Backend, e: Ends, tid: word, call: Call, t: Tables, stale: seq<byte>): (Result, Tables)
    requires e.Valid() && t.Valid() && |stale| == MAX_MESSAGE_LENGTH
  {
    if RefusedLocally(call) then (Failed, t)
    else
      var req := Frame(be, tid, e.client, Request(call));
      match Receive(be, Indication, req)
      case Received(n) =>
        if !(be.HeaderLength() + 1 + be.ChecksumLength() <= n <= MAX_MESSAGE_LENGTH && n <= |req|) then (Failed, t)
        else
          (match ReplyTo(be, e.server, req[..n] + stale[n..], n, t, e.version)
           case Quiet(t') => (Failed, t')
           case Sent(msg, t') =>
             (match Receive(be, Confirmation, msg)
              case Received(m) =>
                if be.HeaderLength() + 2 <= m <= |msg| && be.HeaderLength() + 5 <= |req|
                then (Confirm(be, call, req, msg[..m]), t') else (Failed, t')
              case _ => (Failed, t')))
      case _ => (Failed, t)
  }
}
