/** The client calls as they are written: buffers filled in place, a line that fragments, a
    server that polls it. Each is proved to do what the plain array machine does. */
module ModbusSession {
  import opened Bytes
  import opened ModbusBits
  import opened ModbusWire
  import opened ModbusServer
  import opened ModbusClient
  import opened ModbusRefinement

  class Session {
    const be: Backend
    const ends: Ends
    const mapping: Mapping
    const up: Line
    const down: Line
    var tid: word

    constructor (be: Backend, ends: Ends, mapping: Mapping)
      requires mapping.Valid() && ends.Valid()
      ensures this.be == be && this.ends == ends && this.mapping == mapping
      ensures Valid() && fresh(up) && fresh(down) && tid == 0
      ensures mapping.View() == old(mapping.View())
    {
      this.be, this.ends, this.mapping, tid := be, ends, mapping, 0;
      var a := new Line();
      var b := new Line();
      up, down := a, b;
    }

    /** Between calls both directions are empty: every frame sent has been consumed whole. */
    ghost predicate Valid()
      reads this, up, down, mapping.tabBits, mapping.tabInputBits, mapping.tabInputRegisters, mapping.tabRegisters
    {
      mapping.Valid() && ends.Valid() && up != down && up.pending == [] && down.pending == []
    }

    /** The server is there for the unit the client names. */
    ghost predicate Served() {
      be.TCP? || ends.client == ends.server || ends.client == 0
    }

    /** What a call must come to: the plain machine, or failure when nobody listens. */
    ghost function Expected(call: Call, t: Tables): (Result, Tables) {
      if Served() then Plain(call, t) else (Failed, t)
    }

    /** The server: modbus_receive into a buffer, then modbus_reply. The ghost parameters only
        name the request that is first on the line, and what follows it. */
    method Poll(ghost call: Call, ghost tid: word, ghost rest: seq<byte>)
      requires mapping.Valid() && ends.Valid() && up != down && !RefusedLocally(call)
      requires up.pending == Frame(be, tid, ends.client, Request(call)) + rest && down.pending == []
      modifies up, down, mapping.tabBits, mapping.tabRegisters
      ensures mapping.Valid() && up.pending == rest
      ensures mapping.View() == Expected(call, old(mapping.View())).1
      ensures down.pending
           == if Served() then Frame(be, tid, ends.client, Response(call, old(mapping.View()))) else []
    {
      hide Frame, Request, Response, Plain, Receive, ReplyTo;
      ghost var t, frame := mapping.View(), Frame(be, tid, ends.client, Request(call));
      var req := new byte[MAX_MESSAGE_LENGTH];
      RequestDelimits(be, call);
      OneFrame(be, Indication, tid, ends.client, Request(call), rest);
      assert (frame + rest)[..|frame|] == frame && (frame + rest)[|frame|..] == rest;
      var n := ReceiveMsg(be, Indication, up, req);
      RequestServed(be, ends, tid, call, t, req[..]);
      assert n == |frame| && frame[..|frame|] == frame;
      assert req[..] == frame + req[..][n..];
      var r, sent := mapping.Reply(be, ends.server, req[..], n, ends.version);
      if sent { down.Send(r); }
    }

    /** build_request_basis for the transaction counter, then send, serve, receive, check. */
    method Transact(ghost call: Call, pdu: seq<byte>) returns (rc: int, data: seq<byte>)
      requires Valid() && !RefusedLocally(call) && pdu == Request(call)
      modifies this`tid, up, down, mapping.tabBits, mapping.tabRegisters
      ensures Valid() && tid == NextTid(old(tid))
      ensures mapping.View() == Expected(call, old(mapping.View())).1
      ensures Outcome(call, rc, data, Expected(call, old(mapping.View())).0)
    {
      hide Frame, Response, Plain, Receive, Confirm, CheckConfirmation, Served;
      ghost var t := mapping.View();
      tid := NextTid(tid);
      FrameDef(be, tid, ends.client, pdu);
      var req := Seal(be, Header(be, tid, ends.client) + pdu);
      up.Send(req);
      assert up.pending == req;
      assert req + [] == req;
      Poll(call, tid, []);
      var rsp := new byte[MAX_MESSAGE_LENGTH];
      ghost var stream := down.pending;
      ResponseConfirmed(be, tid, ends.client, call, t);
      NothingReceived(be, Confirmation);
      rc := ReceiveMsg(be, Confirmation, down, rsp);
      data := [];
      if rc == -1 { return; }
      ghost var frame := rsp[..rc];
      data := rsp[be.HeaderLength() + 2..rc];
      assert data == frame[be.HeaderLength() + 2..];
      rc := CheckConfirmation(be, req, rsp[..rc]);
      ConfirmSplit(be, call, req, frame);
    }

    /** What a checked response says about the result, before the values are copied out. */
    ghost predicate Outcome(call: Call, rc: int, data: seq<byte>, r: Result) {
      if rc == -1 then r == Failed
      else match call
           case GetBits(_, nb) => 0 <= rc <= |data| && nb <= 8 * rc && r == Bits(Unpacked(data[..rc], nb))
           case GetInputBits(_, nb) => 0 <= rc <= |data| && nb <= 8 * rc && r == Bits(Unpacked(data[..rc], nb))
           case GetRegisters(_, _) => 0 <= rc && 2 * rc <= |data| && r == Regs(Registers(data, rc))
           case GetInputRegisters(_, _) => 0 <= rc && 2 * rc <= |data| && r == Regs(Registers(data, rc))
           case PutGetRegisters(_, _, _, _) => 0 <= rc && 2 * rc <= |data| && r == Regs(Registers(data, rc))
           case _ => rc >= 0 && r == Done(rc)
    }

    /** read_io_status behind modbus_read_bits and modbus_read_input_bits. */
    method ReadIoStatus(ghost call: Call, functionCode: byte, addr: int, nb: nat, dest: array<byte>) returns (rc: int)
      requires Valid() && (call == GetBits(addr, nb) || call == GetInputBits(addr, nb))
               && functionCode == FunctionOf(call)
      requires nb <= MAX_READ_BITS && nb <= dest.Length && dest != mapping.tabBits && dest != mapping.tabInputBits
      modifies this`tid, up, down, mapping.tabBits, mapping.tabRegisters, dest
      ensures Valid() && mapping.View() == old(mapping.View())
      ensures match Expected(call, old(mapping.View())).0
              case Bits(bits) => rc != -1 && dest[..nb] == bits && dest[nb..] == old(dest[nb..])
              case _ => rc == -1 && dest[..] == old(dest[..])
    {
      ghost var t := mapping.View();
      var data;
      rc, data := Transact(call, Basis(functionCode, addr, nb));
      GetSizes(call, t);
      if rc == -1 { return; }
      DecodeBits(data[..rc], nb, dest);
    }

    method ReadBits(addr: int, nb: nat, dest: array<byte>) returns (rc: int)
      requires Valid() && nb <= dest.Length && dest != mapping.tabBits && dest != mapping.tabInputBits
      modifies this`tid, up, down, mapping.tabBits, mapping.tabRegisters, dest
      ensures Valid() && mapping.View() == old(mapping.View())
      ensures match Expected(GetBits(addr, nb), old(mapping.View())).0
              case Bits(bits) => rc == nb && dest[..nb] == bits && dest[nb..] == old(dest[nb..])
              case _ => rc == -1 && dest[..] == old(dest[..])
    {
      if nb > MAX_READ_BITS { return -1; }
      rc := ReadIoStatus(GetBits(addr, nb), FC_READ_COILS, addr, nb, dest);
      if rc != -1 { rc := nb; }
    }

    method ReadInputBits(addr: int, nb: nat, dest: array<byte>) returns (rc: int)
      requires Valid() && nb <= dest.Length && dest != mapping.tabBits && dest != mapping.tabInputBits
      modifies this`tid, up, down, mapping.tabBits, mapping.tabRegisters, dest
      ensures Valid() && mapping.View() == old(mapping.View())
      ensures match Expected(GetInputBits(addr, nb), old(mapping.View())).0
              case Bits(bits) => rc == nb && dest[..nb] == bits && dest[nb..] == old(dest[nb..])
              case _ => rc == -1 && dest[..] == old(dest[..])
    {
      if nb > MAX_READ_BITS { return -1; }
      rc := ReadIoStatus(GetInputBits(addr, nb), FC_READ_DISCRETE_INPUTS, addr, nb, dest);
      if rc != -1 { rc := nb; }
    }

    /** read_registers, for the holding or the input registers. */
    method ReadRegisters(input: bool, addr: int, nb: nat, dest: array<word>) returns (rc: int)
      requires Valid() && nb <= dest.Length && dest != mapping.tabRegisters && dest != mapping.tabInputRegisters
      modifies this`tid, up, down, mapping.tabBits, mapping.tabRegisters, dest
      ensures Valid() && mapping.View() == old(mapping.View())
      ensures match Expected(if input then GetInputRegisters(addr, nb) else GetRegisters(addr, nb),
                             old(mapping.View())).0
              case Regs(regs) => rc == nb && dest[..nb] == regs && dest[nb..] == old(dest[nb..])
              case _ => rc == -1 && dest[..] == old(dest[..])
    {
      ghost var t := mapping.View();
      if nb > MAX_READ_REGISTERS { return -1; }
      var functionCode := if input then FC_READ_INPUT_REGISTERS else FC_READ_HOLDING_REGISTERS;
      ghost var call := if input then GetInputRegisters(addr, nb) else GetRegisters(addr, nb);
      var data;
      rc, data := Transact(call, Basis(functionCode, addr, nb));
      GetSizes(call, t);
      if rc == -1 { return; }
      CopyRegisters(data, rc, dest);
    }

    /** modbus_write_bit and modbus_write_register */
    method WriteBit(addr: int, status: bool) returns (rc: int)
      requires Valid()
      modifies this`tid, up, down, mapping.tabBits, mapping.tabRegisters
      ensures Valid() && mapping.View() == Expected(PutBit(addr, status), old(mapping.View())).1
      ensures rc == if Expected(PutBit(addr, status), old(mapping.View())).0.Failed? then -1 else 1
    {
      var data;
      rc, data := Transact(PutBit(addr, status), Basis(FC_WRITE_SINGLE_COIL, addr, if status then 0xFF00 else 0));
    }

    method WriteRegister(addr: int, value: int) returns (rc: int)
      requires Valid()
      modifies this`tid, up, down, mapping.tabBits, mapping.tabRegisters
      ensures Valid() && mapping.View() == Expected(PutRegister(addr, value), old(mapping.View())).1
      ensures rc == if Expected(PutRegister(addr, value), old(mapping.View())).0.Failed? then -1 else 1
    {
      var data;
      rc, data := Transact(PutRegister(addr, value), Basis(FC_WRITE_SINGLE_REGISTER, addr, value));
    }

    method WriteBits(addr: int, src: seq<byte>) returns (rc: int)
      requires Valid()
      modifies this`tid, up, down, mapping.tabBits, mapping.tabRegisters
      ensures Valid() && mapping.View() == Expected(PutBits(addr, src), old(mapping.View())).1
      ensures rc == if Expected(PutBits(addr, src), old(mapping.View())).0.Failed? then -1 else |src|
    {
      if |src| > MAX_WRITE_BITS { return -1; }
      var req := EncodeBits(src, Basis(FC_WRITE_MULTIPLE_COILS, addr, |src|) + [ByteCount(|src|)]);
      var data;
      rc, data := Transact(PutBits(addr, src), req);
    }

    method WriteRegisters(addr: int, src: seq<word>) returns (rc: int)
      requires Valid()
      modifies this`tid, up, down, mapping.tabBits, mapping.tabRegisters
      ensures Valid() && mapping.View() == Expected(PutRegisters(addr, src), old(mapping.View())).1
      ensures rc == if Expected(PutRegisters(addr, src), old(mapping.View())).0.Failed? then -1 else |src|
    {
      if |src| > MAX_WRITE_REGISTERS { return -1; }
      var req := EncodeRegisters(src, Basis(FC_WRITE_MULTIPLE_REGISTERS, addr, |src|) + [2 * |src|]);
      var data;
      rc, data := Transact(PutRegisters(addr, src), req);
    }

    /** modbus_write_and_read_registers: the values read are those after the write. */
    method WriteAndReadRegisters(writeAddr: int, src: seq<word>, readAddr: int, nb: nat, dest: array<word>)
      returns (rc: int)
      requires Valid() && nb <= dest.Length && dest != mapping.tabRegisters && dest != mapping.tabInputRegisters
      modifies this`tid, up, down, mapping.tabBits, mapping.tabRegisters, dest
      ensures Valid()
      ensures mapping.View() == Expected(PutGetRegisters(writeAddr, src, readAddr, nb), old(mapping.View())).1
      ensures match Expected(PutGetRegisters(writeAddr, src, readAddr, nb), old(mapping.View())).0
              case Regs(regs) => rc == nb && dest[..nb] == regs && dest[nb..] == old(dest[nb..])
              case _ => rc == -1 && dest[..] == old(dest[..])
    {
      ghost var t := mapping.View();
      if |src| > MAX_RW_WRITE_REGISTERS || nb > MAX_READ_REGISTERS { return -1; }
      ghost var call := PutGetRegisters(writeAddr, src, readAddr, nb);
      var head := Basis(FC_WRITE_AND_READ_REGISTERS, readAddr, nb)
                + [Hi(writeAddr), Lo(writeAddr), Hi(|src|), Lo(|src|), 2 * |src|];
      var req := EncodeRegisters(src, head);
      var data;
      rc, data := Transact(call, req);
      GetSizes(call, t);
      if rc == -1 { return; }
      CopyRegisters(data, rc, dest);
    }

    /** The loop that copies register values to the caller. */
    method CopyRegisters(data: seq<byte>, nb: nat, dest: array<word>)
      requires 2 * nb <= |data| && nb <= dest.Length
      modifies dest
      ensures dest[..nb] == Registers(data, nb) && dest[nb..] == old(dest[nb..])
    {
      var i := 0;
      while i < nb
        invariant 0 <= i <= nb
        invariant forall k | 0 <= k < i :: dest[k] == At16(data, 2 * k)
        invariant forall k | nb <= k < dest.Length :: dest[k] == old(dest[k])
      {
        dest[i] := data[2 * i] as int * 0x100 + data[2 * i + 1] as int;
        i := i + 1;
      }
    }

    lemma GetSizes(call: Call, t: Tables)
      requires !RefusedLocally(call) && t.Valid()
      ensures match Expected(call, t).0
              case Bits(bits) => (call.GetBits? || call.GetInputBits?) && |bits| == call.nb
              case Regs(regs) => (call.GetRegisters? || call.GetInputRegisters? || call.PutGetRegisters?)
                && |regs| == call.nb
              case _ => true
    {
      PlainSizes(call, t);
    }

    lemma ConfirmSplit(be: Backend, call: Call, req: seq<byte>, rsp: seq<byte>)
      requires |req| >= be.HeaderLength() + 5 && |rsp| >= be.HeaderLength() + 2
      ensures Outcome(call, CheckConfirmation(be, req, rsp), rsp[be.HeaderLength() + 2..], Confirm(be, call, req, rsp))
           || Confirm(be, call, req, rsp) == Failed
    {}
  }

  lemma NothingReceived(be: Backend, kind: MsgType)
    ensures Receive(be, kind, []) == Starved
  {}
}
