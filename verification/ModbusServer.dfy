/** The server half: modbus_reply over the four tables of a mapping. */
module ModbusServer {
  import opened Bytes
  import opened ModbusBits
  import opened ModbusWire

  datatype Tables = Tables(bits: seq<byte>, inputBits: seq<byte>, inputRegs: seq<word>, regs: seq<word>) {
    predicate Valid() { Binary(bits) && Binary(inputBits) }
  }

  const MAX_READ_BITS := 2000
  const MAX_WRITE_BITS := 1968
  const MAX_READ_REGISTERS := 125
  const MAX_WRITE_REGISTERS := 123
  const MAX_RW_WRITE_REGISTERS := 121

  const ILLEGAL_FUNCTION: byte := 1
  const ILLEGAL_DATA_ADDRESS: byte := 2
  const ILLEGAL_DATA_VALUE: byte := 3

  /** Replacing the cells from `at` on. */
  function Splice<T>(s: seq<T>, at: nat, vals: seq<T>): (r: seq<T>)
    requires at + |vals| <= |s|
    ensures |r| == |s|
    ensures r[at..at + |vals|] == vals
    ensures forall k | 0 <= k < |s| && !(at <= k < at + |vals|) :: r[k] == s[k]
  {
    s[..at] + vals + s[at + |vals|..]
  }

  // ---------------------------------------------------------------- the request switch

  datatype Answer =
    | Answer(pdu: seq<byte>, tables: Tables)  // function code and data of a fresh response
    | Echo(tables: Tables)                    // the request itself, sent back
    | Silent                                  // nothing is sent

  function Exception(functionCode: byte, code: byte): seq<byte> {
    [Lo(functionCode as int + 0x80), code]
  }

  function ReadBits(b: seq<byte>, cells: seq<byte>, t: Tables): Answer
    requires |b| >= 5 && Binary(cells)
  {
    var nb := At16(b, 3);
    var address := At16(b, 1);
    if nb < 1 || MAX_READ_BITS < nb then Answer(Exception(b[0], ILLEGAL_DATA_VALUE), t)
    else if address + nb > |cells| then Answer(Exception(b[0], ILLEGAL_DATA_ADDRESS), t)
    else Answer([b[0], ByteCount(nb)] + Packed(cells[address..address + nb]), t)
  }

  function ReadRegisters(b: seq<byte>, cells: seq<word>, t: Tables): Answer
    requires |b| >= 5
  {
    var nb := At16(b, 3);
    var address := At16(b, 1);
    if nb < 1 || MAX_READ_REGISTERS < nb then Answer(Exception(b[0], ILLEGAL_DATA_VALUE), t)
    else if address + nb > |cells| then Answer(Exception(b[0], ILLEGAL_DATA_ADDRESS), t)
    else Answer([b[0], 2 * nb] + RegisterBytes(cells[address..address + nb]), t)
  }

  function WriteCoil(b: seq<byte>, t: Tables): Answer
    requires |b| >= 5
  {
    var address := At16(b, 1);
    var data := At16(b, 3);
    if address >= |t.bits| then Answer(Exception(b[0], ILLEGAL_DATA_ADDRESS), t)
    else if data == 0xFF00 || data == 0 then Echo(t.(bits := t.bits[address := if data != 0 then 1 else 0]))
    else Answer(Exception(b[0], ILLEGAL_DATA_VALUE), t)
  }

  function WriteRegister(b: seq<byte>, t: Tables): Answer
    requires |b| >= 5
  {
    var address := At16(b, 1);
    if address >= |t.regs| then Answer(Exception(b[0], ILLEGAL_DATA_ADDRESS), t)
    else Echo(t.(regs := t.regs[address := At16(b, 3)]))
  }

  /** The byte count b[5] is not looked at: the values are whatever the buffer holds. */
  function WriteCoils(b: seq<byte>, t: Tables): Answer
    requires |b| >= 6 + ByteCount(MAX_WRITE_BITS)
  {
    var nb := At16(b, 3);
    var address := At16(b, 1);
    if nb < 1 || MAX_WRITE_BITS < nb then Answer(Exception(b[0], ILLEGAL_DATA_VALUE), t)
    else if address + nb > |t.bits| then Answer(Exception(b[0], ILLEGAL_DATA_ADDRESS), t)
    else Answer(b[..5], t.(bits := Splice(t.bits, address, Unpacked(b[6..], nb))))
  }

  function WriteRegisters(b: seq<byte>, t: Tables): Answer
    requires |b| >= 6 + 2 * MAX_WRITE_REGISTERS
  {
    var nb := At16(b, 3);
    var address := At16(b, 1);
    if nb < 1 || MAX_WRITE_REGISTERS < nb then Answer(Exception(b[0], ILLEGAL_DATA_VALUE), t)
    else if address + nb > |t.regs| then Answer(Exception(b[0], ILLEGAL_DATA_ADDRESS), t)
    else Answer(b[..5], t.(regs := Splice(t.regs, address, Registers(b[6..], nb))))
  }

  function WriteAndRead(b: seq<byte>, t: Tables): Answer
    requires |b| >= 10 + 2 * MAX_RW_WRITE_REGISTERS
  {
    var nb := At16(b, 3);
    var address := At16(b, 1);
    var addressWrite := At16(b, 5);
    var nbWrite := At16(b, 7);
    if nbWrite < 1 || MAX_RW_WRITE_REGISTERS < nbWrite || nb < 1 || MAX_READ_REGISTERS < nb || b[9] != nbWrite * 2 then
      Answer(Exception(b[0], ILLEGAL_DATA_VALUE), t)
    else if address + nb > |t.regs| || addressWrite + nbWrite > |t.regs| then
      Answer(Exception(b[0], ILLEGAL_DATA_ADDRESS), t)
    else
      var regs := Splice(t.regs, addressWrite, Registers(b[10..], nbWrite));
      Answer([b[0], 2 * nb] + RegisterBytes(regs[address..address + nb]), t.(regs := regs))
  }

  /** Identification: slave id 180, running, "LMB" and the library version. */
  function SlaveId(version: seq<byte>): (data: seq<byte>)
    requires |version| <= 200
  {
    [180, 0xFF, 0x4C, 0x4D, 0x42] + version
  }

  /** The part of the request buffer the server may look at, from the function code on. */
  const PDU_BUFFER := 253

  /** The switch of modbus_reply. `b` is the receive buffer from the function code on; it may
      hold old bytes behind the request. */
  function Serve(b: seq<byte>, t: Tables, version: seq<byte>): Answer
    requires |b| >= PDU_BUFFER && t.Valid() && |version| <= 200
  {
    var f := b[0];
    if f == FC_READ_COILS then ReadBits(b, t.bits, t)
    else if f == FC_READ_DISCRETE_INPUTS then ReadBits(b, t.inputBits, t)
    else if f == FC_READ_HOLDING_REGISTERS then ReadRegisters(b, t.regs, t)
    else if f == FC_READ_INPUT_REGISTERS then ReadRegisters(b, t.inputRegs, t)
    else if f == FC_WRITE_SINGLE_COIL then WriteCoil(b, t)
    else if f == FC_WRITE_SINGLE_REGISTER then WriteRegister(b, t)
    else if f == FC_WRITE_MULTIPLE_COILS then WriteCoils(b, t)
    else if f == FC_WRITE_MULTIPLE_REGISTERS then WriteRegisters(b, t)
    else if f == FC_REPORT_SLAVE_ID then Answer([f, |SlaveId(version)|] + SlaveId(version), t)
    else if f == FC_READ_EXCEPTION_STATUS then Silent
    else if f == FC_WRITE_AND_READ_REGISTERS then WriteAndRead(b, t)
    else Answer(Exception(f, ILLEGAL_FUNCTION), t)
  }

  datatype Reply = Quiet(tables: Tables) | Sent(msg: seq<byte>, tables: Tables)

  predicate Filtered(be: Backend, own: int, slave: byte) {
    be.RTU? && slave != own && slave != 0
  }

  function ResponseTid(be: Backend, req: seq<byte>): word
    requires |req| >= 2
  {
    if be.RTU? then 0 else At16(req, 0)
  }

  /** modbus_reply on a receive buffer `req` whose first `n` bytes are the request: what goes
      out on the line, and the tables afterwards. `own` is the server's unit identifier. */
  function ReplyTo(be: Backend, own: int, req: seq<byte>, n: nat, t: Tables, version: seq<byte>): Reply
    requires |req| == MAX_MESSAGE_LENGTH && t.Valid() && |version| <= 200
    requires be.HeaderLength() + 1 + be.ChecksumLength() <= n <= |req|
  {
    var h := be.HeaderLength();
    if Filtered(be, own, req[h - 1]) then Quiet(t)
    else match Serve(req[h..], t, version)
         case Answer(pdu, t') => Sent(SendMsgPre(be, Header(be, ResponseTid(be, req), req[h - 1]) + pdu), t')
         case Echo(t') => Sent(SendMsgPre(be, req[..n - be.ChecksumLength()]), t')
         case Silent => Quiet(t)
  }

  // ---------------------------------------------------------------- what every request keeps

  /** No request changes the read-only tables or the size of any table, and coils stay 0 or 1. */
  lemma ServeKeepsShape(b: seq<byte>, t: Tables, version: seq<byte>)
    requires |b| >= PDU_BUFFER && t.Valid() && |version| <= 200
    ensures var a := Serve(b, t, version);
            !a.Silent? ==>
              && a.tables.Valid()
              && a.tables.inputBits == t.inputBits && a.tables.inputRegs == t.inputRegs
              && |a.tables.bits| == |t.bits| && |a.tables.regs| == |t.regs|
  {
    hide Packed, RegisterBytes, Exception, Unpacked, Registers, Splice;
    if b[0] == FC_WRITE_MULTIPLE_COILS {
      hide ReadBits, ReadRegisters, WriteRegisters, WriteAndRead, WriteRegister, WriteCoil;
      var nb, address := At16(b, 3), At16(b, 1);
      if 1 <= nb <= MAX_WRITE_BITS && address + nb <= |t.bits| {
        SpliceBinary(t.bits, address, Unpacked(b[6..], nb));
      }
    } else if b[0] == FC_WRITE_AND_READ_REGISTERS {
      hide ReadBits, ReadRegisters, WriteRegisters, WriteCoils, WriteRegister, WriteCoil;
    } else {
      hide WriteCoils, WriteAndRead;
    }
  }

  /** An exception answer never comes with a table change, and it is the only answer whose
      function code differs from the request's. */
  lemma ExceptionChangesNothing(b: seq<byte>, t: Tables, version: seq<byte>)
    requires |b| >= PDU_BUFFER && t.Valid() && |version| <= 200
    ensures var a := Serve(b, t, version);
            a.Answer? ==> |a.pdu| >= 2 && (a.pdu[0] == b[0] || (a.pdu[0] == Lo(b[0] as int + 0x80) && a.tables == t))
  {
    hide Packed, RegisterBytes;
  }

  // ---------------------------------------------------------------- the mapping in memory

  class Mapping {
    const tabBits: array<byte>
    const tabInputBits: array<byte>
    const tabInputRegisters: array<word>
    const tabRegisters: array<word>

    ghost predicate Valid()
      reads tabBits, tabInputBits, tabInputRegisters, tabRegisters
    {
      && tabBits != tabInputBits
      && tabInputRegisters != tabRegisters
      && View().Valid()
    }

    ghost function View(): Tables
      reads tabBits, tabInputBits, tabInputRegisters, tabRegisters
    {
      Tables(tabBits[..], tabInputBits[..], tabInputRegisters[..], tabRegisters[..])
    }

    /** modbus_mapping_new: all cells zero. */
    constructor (nbBits: nat, nbInputBits: nat, nbRegisters: nat, nbInputRegisters: nat)
      ensures Valid() && fresh(tabBits) && fresh(tabRegisters)
      ensures View() == Tables(seq(nbBits, _ => 0), seq(nbInputBits, _ => 0),
                               seq(nbInputRegisters, _ => 0), seq(nbRegisters, _ => 0))
    {
      var bits := new byte[nbBits](_ => 0);
      var inputBits := new byte[nbInputBits](_ => 0);
      var inputRegs := new word[nbInputRegisters](_ => 0);
      var regs := new word[nbRegisters](_ => 0);
      tabBits, tabInputBits, tabInputRegisters, tabRegisters := bits, inputBits, inputRegs, regs;
    }

    method ReplyReadBits(b: seq<byte>, tab: array<byte>) returns (pdu: seq<byte>)
      requires |b| >= 5 && Binary(tab[..])
      ensures pdu != [] && forall t: Tables :: ReadBits(b, tab[..], t) == Answer(pdu, t)
    {
      var nb := At16(b, 3);
      var address := At16(b, 1);
      if nb < 1 || MAX_READ_BITS < nb {
        pdu := Exception(b[0], ILLEGAL_DATA_VALUE);
      } else if address + nb > tab.Length {
        pdu := Exception(b[0], ILLEGAL_DATA_ADDRESS);
      } else {
        pdu := ResponseIoStatus(address, nb, tab, [b[0], ByteCount(nb)]);
        assert tab[..][address..address + nb] == tab[address..address + nb];
      }
    }

    method ReplyReadRegisters(b: seq<byte>, tab: array<word>) returns (pdu: seq<byte>)
      requires |b| >= 5
      ensures pdu != [] && forall t: Tables :: ReadRegisters(b, tab[..], t) == Answer(pdu, t)
    {
      var nb := At16(b, 3);
      var address := At16(b, 1);
      if nb < 1 || MAX_READ_REGISTERS < nb {
        pdu := Exception(b[0], ILLEGAL_DATA_VALUE);
      } else if address + nb > tab.Length {
        pdu := Exception(b[0], ILLEGAL_DATA_ADDRESS);
      } else {
        pdu := EncodeRegisters(tab[address..address + nb], [b[0], 2 * nb]);
        assert tab[..][address..address + nb] == tab[address..address + nb];
      }
    }

    method ReplyWriteCoils(b: seq<byte>) returns (pdu: seq<byte>)
      requires |b| >= PDU_BUFFER && Valid()
      modifies tabBits
      ensures pdu != [] && Valid() && WriteCoils(b, old(View())) == Answer(pdu, View())
    {
      ghost var before := View();
      var nb := At16(b, 3);
      var address := At16(b, 1);
      if nb < 1 || MAX_WRITE_BITS < nb {
        pdu := Exception(b[0], ILLEGAL_DATA_VALUE);
      } else if address + nb > tabBits.Length {
        pdu := Exception(b[0], ILLEGAL_DATA_ADDRESS);
      } else {
        SetBitsFromBytes(tabBits, address, nb, b[6..]);
        pdu := b[..5];
        assert tabBits[..] == Splice(before.bits, address, Unpacked(b[6..], nb));
        SpliceBinary(before.bits, address, Unpacked(b[6..], nb));
      }
    }

    method ReplyWriteRegisters(b: seq<byte>) returns (pdu: seq<byte>)
      requires |b| >= PDU_BUFFER && Valid()
      modifies tabRegisters
      ensures pdu != [] && Valid() && WriteRegisters(b, old(View())) == Answer(pdu, View())
    {
      ghost var before := View();
      var nb := At16(b, 3);
      var address := At16(b, 1);
      if nb < 1 || MAX_WRITE_REGISTERS < nb {
        pdu := Exception(b[0], ILLEGAL_DATA_VALUE);
      } else if address + nb > tabRegisters.Length {
        pdu := Exception(b[0], ILLEGAL_DATA_ADDRESS);
      } else {
        DecodeRegisters(b[6..], tabRegisters, address, nb);
        pdu := b[..5];
        assert tabRegisters[..] == Splice(before.regs, address, Registers(b[6..], nb));
      }
    }

    method ReplyWriteAndRead(b: seq<byte>) returns (pdu: seq<byte>)
      requires |b| >= PDU_BUFFER && Valid()
      modifies tabRegisters
      ensures pdu != [] && Valid() && WriteAndRead(b, old(View())) == Answer(pdu, View())
    {
      hide RegisterBytes, Registers;
      ghost var before := View();
      var nb := At16(b, 3);
      var address := At16(b, 1);
      var addressWrite := At16(b, 5);
      var nbWrite := At16(b, 7);
      if nbWrite < 1 || MAX_RW_WRITE_REGISTERS < nbWrite || nb < 1 || MAX_READ_REGISTERS < nb || b[9] != nbWrite * 2 {
        pdu := Exception(b[0], ILLEGAL_DATA_VALUE);
      } else if address + nb > tabRegisters.Length || addressWrite + nbWrite > tabRegisters.Length {
        pdu := Exception(b[0], ILLEGAL_DATA_ADDRESS);
      } else {
        // the write comes first, so the response shows it
        DecodeRegisters(b[10..], tabRegisters, addressWrite, nbWrite);
        assert tabRegisters[..] == Splice(before.regs, addressWrite, Registers(b[10..], nbWrite));
        pdu := EncodeRegisters(tabRegisters[address..address + nb], [b[0], 2 * nb]);
        assert tabRegisters[..][address..address + nb] == tabRegisters[address..address + nb];
      }
    }

    /** modbus_reply */
    method Reply(be: Backend, own: int, req: seq<byte>, n: nat, version: seq<byte>) returns (r: seq<byte>, sent: bool)
      requires |req| == MAX_MESSAGE_LENGTH && Valid() && |version| <= 200
      requires be.HeaderLength() + 1 + be.ChecksumLength() <= n <= |req|
      modifies tabBits, tabRegisters
      ensures Valid()
      ensures ReplyTo(be, own, req, n, old(View()), version) == if sent then Sent(r, View()) else Quiet(View())
    {
      hide ReadBits, ReadRegisters, WriteCoils, WriteRegisters, WriteAndRead, SendMsgPre, Packed, RegisterBytes;
      var h := be.HeaderLength();
      var slave := req[h - 1];
      if Filtered(be, own, slave) { return [], false; }
      var b := req[h..];
      var f := b[0];
      var pdu := [];
      var echo := false;
      if f == FC_READ_COILS { pdu := ReplyReadBits(b, tabBits); }
      else if f == FC_READ_DISCRETE_INPUTS { pdu := ReplyReadBits(b, tabInputBits); }
      else if f == FC_READ_HOLDING_REGISTERS { pdu := ReplyReadRegisters(b, tabRegisters); }
      else if f == FC_READ_INPUT_REGISTERS { pdu := ReplyReadRegisters(b, tabInputRegisters); }
      else if f == FC_WRITE_SINGLE_COIL {
        var address, data := At16(b, 1), At16(b, 3);
        if address >= tabBits.Length { pdu := Exception(f, ILLEGAL_DATA_ADDRESS); }
        else if data == 0xFF00 || data == 0 {
          tabBits[address] := if data != 0 then 1 else 0;
          echo := true;
        } else { pdu := Exception(f, ILLEGAL_DATA_VALUE); }
      } else if f == FC_WRITE_SINGLE_REGISTER {
        var address := At16(b, 1);
        if address >= tabRegisters.Length { pdu := Exception(f, ILLEGAL_DATA_ADDRESS); }
        else {
          tabRegisters[address] := At16(b, 3);
          echo := true;
        }
      } else if f == FC_WRITE_MULTIPLE_COILS { pdu := ReplyWriteCoils(b); }
      else if f == FC_WRITE_MULTIPLE_REGISTERS { pdu := ReplyWriteRegisters(b); }
      else if f == FC_REPORT_SLAVE_ID { pdu := [f, |SlaveId(version)|] + SlaveId(version); }
      else if f == FC_READ_EXCEPTION_STATUS { return [], false; }
      else if f == FC_WRITE_AND_READ_REGISTERS { pdu := ReplyWriteAndRead(b); }
      else { pdu := Exception(f, ILLEGAL_FUNCTION); }
      var rsp := if echo then req[..n - be.ChecksumLength()] else Header(be, ResponseTid(be, req), slave) + pdu;
      r := Seal(be, rsp);
      sent := true;
    }
  }

  lemma SpliceBinary(s: seq<byte>, at: nat, vals: seq<byte>)
    requires at + |vals| <= |s| && Binary(s) && Binary(vals)
    ensures Binary(Splice(s, at, vals))
  {
    var r := Splice(s, at, vals);
    forall k | 0 <= k < |r| ensures r[k] <= 1 {
      if at <= k < at + |vals| { assert r[k] == r[at..at + |vals|][k - at]; }
    }
  }
}
