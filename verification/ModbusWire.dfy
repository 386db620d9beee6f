/** Framing: the RTU and TCP backends, and the incremental receiver of modbus.c. */
module ModbusWire {
  import opened Bytes
  import opened ModbusBits
  import ModbusCrc

  const MAX_MESSAGE_LENGTH := 260

  datatype Backend = RTU | TCP {
    function HeaderLength(): nat { if RTU? then 1 else 7 }
    function ChecksumLength(): nat { if RTU? then 2 else 0 }
    function MaxAdu(): nat { if RTU? then 256 else 260 }
  }

  // ---------------------------------------------------------------- sealing a message

  function AsBits(msg: seq<byte>): (v: seq<bv8>)
    ensures |v| == |msg|
  {
    seq(|msg|, i requires 0 <= i < |msg| => ToBits(msg[i]))
  }

  /** The two CRC bytes of a message, first sent first. */
  function CrcBytes(msg: seq<byte>): (crc: seq<byte>)
    ensures |crc| == 2
  {
    var c := ModbusCrc.BitCrc(ModbusCrc.SEED, AsBits(msg));
    [FromBits(ModbusCrc.First(c)), FromBits(ModbusCrc.Second(c))]
  }

  /** send_msg_pre: RTU appends the CRC, TCP fills in the MBAP length field. */
  function SendMsgPre(be: Backend, msg: seq<byte>): seq<byte>
    requires |msg| > be.HeaderLength()
  {
    if be.RTU? then msg + CrcBytes(msg)
    else msg[4 := Hi(|msg| - 6)][5 := Lo(|msg| - 6)]
  }

  /** check_integrity. TCP accepts everything. */
  predicate CheckIntegrity(be: Backend, msg: seq<byte>)
    requires |msg| >= be.ChecksumLength()
  {
    be.RTU? ==> ModbusCrc.Intact(AsBits(msg))
  }

  /** The bytes of a message determine its bits and the other way round. */
  lemma SameBits(a: seq<byte>, b: seq<byte>)
    ensures AsBits(a) == AsBits(b) <==> a == b
  {
    hide ToBits;
    if AsBits(a) == AsBits(b) {
      forall i | 0 <= i < |a| ensures a[i] == b[i] {
        assert AsBits(a)[i] == AsBits(b)[i];
        FromToBits(a[i]);
        FromToBits(b[i]);
      }
    }
  }

  lemma JoinedBits(a: seq<byte>, b: seq<byte>)
    ensures AsBits(a + b) == AsBits(a) + AsBits(b)
  {
    hide ToBits;
  }

  lemma TwoBits(x: bv8, y: bv8)
    ensures AsBits([FromBits(x), FromBits(y)]) == [x, y]
  {
    hide ToBits, FromBits;
    ToFromBits(x);
    ToFromBits(y);
  }

  /** send_msg_pre over RTU seals the message. */
  lemma SealedBytes(msg: seq<byte>)
    ensures AsBits(msg + CrcBytes(msg)) == ModbusCrc.Sealed(AsBits(msg))
  {
    hide ModbusCrc.BitCrc, ModbusCrc.First, ModbusCrc.Second, AsBits, FromBits;
    var c := ModbusCrc.BitCrc(ModbusCrc.SEED, AsBits(msg));
    JoinedBits(msg, CrcBytes(msg));
    TwoBits(ModbusCrc.First(c), ModbusCrc.Second(c));
  }

  /** send_msg_pre as it runs: the CRC comes from the table loop. */
  method Seal(be: Backend, msg: seq<byte>) returns (frame: seq<byte>)
    requires |msg| > be.HeaderLength()
    ensures frame == SendMsgPre(be, msg)
  {
    hide ModbusCrc.BitCrc, ModbusCrc.First, ModbusCrc.Second;
    if be.TCP? { return SendMsgPre(be, msg); }
    var crc := ModbusCrc.Crc16(AsBits(msg));
    frame := msg + [FromBits(ModbusCrc.Second(crc)), FromBits(ModbusCrc.First(crc))];
  }

  /** check_integrity as it runs. */
  method Check(be: Backend, msg: seq<byte>) returns (ok: bool)
    requires |msg| >= be.ChecksumLength()
    ensures ok == CheckIntegrity(be, msg)
  {
    hide ModbusCrc.BitCrc, ModbusCrc.First, ModbusCrc.Second;
    if be.TCP? { return true; }
    var n := |msg| - 2;
    var crc := ModbusCrc.Crc16(AsBits(msg)[..n]);
    ok := ModbusCrc.Second(crc) == AsBits(msg)[n] && ModbusCrc.First(crc) == AsBits(msg)[n + 1];
  }

  /** What the two backends write before the function code. The MBAP length is still blank. */
  function Header(be: Backend, tid: word, slave: byte): (h: seq<byte>)
    ensures |h| == be.HeaderLength()
  {
    if be.RTU? then [slave] else [Hi(tid), Lo(tid), 0, 0, 0, 0, slave]
  }

  /** The bytes on the wire for one protocol data unit. */
  function Frame(be: Backend, tid: word, slave: byte, pdu: seq<byte>): seq<byte>
    requires pdu != []
  {
    SendMsgPre(be, Header(be, tid, slave) + pdu)
  }

  lemma FrameLayout(be: Backend, tid: word, slave: byte, pdu: seq<byte>)
    requires pdu != []
    ensures var f := Frame(be, tid, slave, pdu);
            var h := be.HeaderLength();
            && |f| == h + |pdu| + be.ChecksumLength()
            && f[h - 1] == slave
            && f[h..h + |pdu|] == pdu
            && f[..h + |pdu|] == f[..h] + pdu
            && CheckIntegrity(be, f)
            && (be.TCP? ==> f[0] == Hi(tid) && f[1] == Lo(tid) && f[2] == 0 && f[3] == 0)
  {
    hide CrcBytes, Hi, Lo, AsBits, ModbusCrc.Sealed, ModbusCrc.Intact;
    if be.RTU? {
      SealedBytes(Header(be, tid, slave) + pdu);
      ModbusCrc.SealedIsIntact(AsBits(Header(be, tid, slave) + pdu));
    }
  }

  // ---------------------------------------------------------------- how long a message is

  datatype MsgType = Indication | Confirmation

  const FC_READ_COILS := 0x01
  const FC_READ_DISCRETE_INPUTS := 0x02
  const FC_READ_HOLDING_REGISTERS := 0x03
  const FC_READ_INPUT_REGISTERS := 0x04
  const FC_WRITE_SINGLE_COIL := 0x05
  const FC_WRITE_SINGLE_REGISTER := 0x06
  const FC_READ_EXCEPTION_STATUS := 0x07
  const FC_WRITE_MULTIPLE_COILS := 0x0F
  const FC_WRITE_MULTIPLE_REGISTERS := 0x10
  const FC_REPORT_SLAVE_ID := 0x11
  const FC_WRITE_AND_READ_REGISTERS := 0x17

  /** compute_meta_length_after_function */
  function MetaLength(functionCode: byte, kind: MsgType): nat {
    if kind.Indication? then
      if functionCode <= FC_WRITE_SINGLE_REGISTER then 4
      else if functionCode == FC_WRITE_MULTIPLE_COILS || functionCode == FC_WRITE_MULTIPLE_REGISTERS then 5
      else if functionCode == FC_WRITE_AND_READ_REGISTERS then 9
      else 0
    else if functionCode == FC_WRITE_SINGLE_COIL || functionCode == FC_WRITE_SINGLE_REGISTER
         || functionCode == FC_WRITE_MULTIPLE_COILS || functionCode == FC_WRITE_MULTIPLE_REGISTERS then 4
    else 1
  }

  /** compute_data_length_after_meta, without the checksum: `pdu` is the message from its
      function code on. */
  function DataLength(pdu: seq<byte>, kind: MsgType): nat
    requires |pdu| > 0 && |pdu| >= 1 + MetaLength(pdu[0], kind)
  {
    var functionCode := pdu[0];
    if kind.Indication? then
      if functionCode == FC_WRITE_MULTIPLE_COILS || functionCode == FC_WRITE_MULTIPLE_REGISTERS then pdu[5]
      else if functionCode == FC_WRITE_AND_READ_REGISTERS then pdu[9]
      else 0
    else if functionCode <= FC_READ_INPUT_REGISTERS || functionCode == FC_REPORT_SLAVE_ID
         || functionCode == FC_WRITE_AND_READ_REGISTERS then pdu[1]
    else 0
  }

  // ---------------------------------------------------------------- what receiving means

  datatype Outcome =
    | Received(length: nat)      // the message is the first `length` bytes
    | BadCrc(length: nat)        // that many bytes were taken and failed the check
    | TooManyData(length: nat)   // refused after this many bytes: the announced rest is too long
    | Starved                    // the line went quiet before the message was complete

  /** The result of receiving from a line that carries `stream` and nothing more. It does not
      mention how the bytes are fragmented. */
  function Receive(be: Backend, kind: MsgType, stream: seq<byte>): Outcome {
    var h := be.HeaderLength();
    if |stream| < h + 1 then Starved
    else
      var meta := h + 1 + MetaLength(stream[h], kind);
      if |stream| < meta then Starved
      else
        var total := meta + DataLength(stream[h..meta], kind) + be.ChecksumLength();
        if total > be.MaxAdu() then TooManyData(meta)
        else if |stream| < total then Starved
        else if CheckIntegrity(be, stream[..total]) then Received(total)
        else BadCrc(total)
  }

  /** A data unit that says its own length correctly, and fits. */
  predicate SelfDelimiting(be: Backend, kind: MsgType, pdu: seq<byte>) {
    && |pdu| > 0
    && |pdu| >= 1 + MetaLength(pdu[0], kind)
    && |pdu| == 1 + MetaLength(pdu[0], kind) + DataLength(pdu[..1 + MetaLength(pdu[0], kind)], kind)
    && be.HeaderLength() + |pdu| + be.ChecksumLength() <= be.MaxAdu()
  }

  /** Exactly one frame is taken, whatever follows it on the line. */
  lemma OneFrame(be: Backend, kind: MsgType, tid: word, slave: byte, pdu: seq<byte>, rest: seq<byte>)
    requires SelfDelimiting(be, kind, pdu)
    ensures var f := Frame(be, tid, slave, pdu);
            Receive(be, kind, f + rest) == Received(|f|)
  {
    hide Frame, CheckIntegrity, MetaLength, DataLength;
    FrameLayout(be, tid, slave, pdu);
    var f := Frame(be, tid, slave, pdu);
    var h := be.HeaderLength();
    var stream := f + rest;
    var meta := h + 1 + MetaLength(pdu[0], kind);
    assert stream[h] == pdu[0] by { assert f[h..h + |pdu|][0] == f[h]; }
    assert stream[h..meta] == pdu[..1 + MetaLength(pdu[0], kind)] by {
      assert stream[h..meta] == f[h..meta];
      assert f[h..h + |pdu|][..meta - h] == f[h..meta];
    }
    assert stream[..|f|] == f;
  }

  /** A frame sent over RTU and altered within two adjacent bytes, be it one byte or two, is not
      received as a message of its length, whatever follows it. */
  lemma AlteredFrameNotReceived(kind: MsgType, tid: word, slave: byte, pdu: seq<byte>, altered: seq<byte>, k: nat,
                                rest: seq<byte>)
    requires pdu != []
    requires var f := Frame(RTU, tid, slave, pdu);
             |altered| == |f| && k + 2 <= |f| && altered != f && altered[..k] == f[..k]
               && altered[k + 2..] == f[k + 2..]
    ensures Receive(RTU, kind, altered + rest) != Received(|altered|)
  {
    hide Frame, MetaLength, DataLength, AsBits, ModbusCrc.Intact;
    var f := Frame(RTU, tid, slave, pdu);
    FrameLayout(RTU, tid, slave, pdu);
    SameBits(altered, f);
    BitsAround(altered, k);
    BitsAround(f, k);
    ModbusCrc.AdjacentAlterationRejected(AsBits(f), AsBits(altered), k);
    assert (altered + rest)[..|altered|] == altered;
  }

  lemma BitsAround(msg: seq<byte>, k: nat)
    requires k + 2 <= |msg|
    ensures AsBits(msg)[..k] == AsBits(msg[..k]) && AsBits(msg)[k + 2..] == AsBits(msg[k + 2..])
  {}

  // ---------------------------------------------------------------- receive_msg

  /** A byte line. `Recv` may return any non-empty part of what was asked for; it returns 0 or
      fails only when nothing more arrives. */
  class Line {
    var pending: seq<byte>

    constructor ()
      ensures pending == []
    {
      pending := [];
    }

    method Send(msg: seq<byte>)
      modifies this
      ensures pending == old(pending) + msg
    {
      pending := pending + msg;
    }

    method Recv(buf: array<byte>, at: nat, want: nat) returns (rc: int)
      requires want > 0 && at + want <= buf.Length
      modifies this, buf
      ensures old(pending) == [] ==> rc == -1 && pending == [] && buf[..] == old(buf[..])
      ensures old(pending) != [] ==> 0 < rc <= want && rc <= |old(pending)|
      ensures old(pending) != [] ==> buf[..] == old(buf[..at]) + old(pending[..rc]) + old(buf[at + rc..])
      ensures old(pending) != [] ==> pending == old(pending)[rc..]
    {
      if pending == [] { return -1; }
      var n: nat :| 0 < n <= want && n <= |pending| by { assert 0 < 1 <= want && 1 <= |pending|; }
      forall i | 0 <= i < n { buf[at + i] := pending[i]; }
      pending := pending[n..];
      rc := n;
    }
  }

  datatype Step = Function | Meta | Data {
    function Rank(): nat { if Function? then 2 else if Meta? then 1 else 0 }
  }

  datatype Plan = Read(step: Step, want: nat) | Refuse

  /** The switch at the end of a step. With no meta bytes it falls through from Function to
      Meta. */
  function AfterStep(be: Backend, kind: MsgType, got: seq<byte>, step: Step): Plan
    requires |got| > be.HeaderLength()
    requires step.Meta? ==> |got| >= be.HeaderLength() + 1 + MetaLength(got[be.HeaderLength()], kind)
  {
    var h := be.HeaderLength();
    if step.Function? && MetaLength(got[h], kind) != 0 then Read(Meta, MetaLength(got[h], kind))
    else if step.Data? then Read(Data, 0)
    else
      var want := DataLength(got[h..], kind) + be.ChecksumLength();
      if |got| + want > be.MaxAdu() then Refuse else Read(Data, want)
  }

  /** Where the receiver stands: after `step`, `length + want` is the end of that step. */
  ghost predicate Progress(be: Backend, kind: MsgType, stream: seq<byte>, step: Step, length: nat, want: nat)
    requires length <= |stream|
  {
    var h := be.HeaderLength();
    && length + want <= be.MaxAdu()
    && match step
       case Function => length + want == h + 1
       case Meta => length > h && length + want == h + 1 + MetaLength(stream[h], kind)
       case Data =>
         && length > h
         && var meta := h + 1 + MetaLength(stream[h], kind);
            && meta <= length
            && length + want == meta + DataLength(stream[h..meta], kind) + be.ChecksumLength()
  }

  lemma AfterStepProgress(be: Backend, kind: MsgType, stream: seq<byte>, step: Step, length: nat)
    requires length <= |stream| && Progress(be, kind, stream, step, length, 0)
    ensures |stream[..length]| > be.HeaderLength()
    ensures step.Meta? ==> length == be.HeaderLength() + 1 + MetaLength(stream[be.HeaderLength()], kind)
    ensures match AfterStep(be, kind, stream[..length], step)
            case Refuse => Receive(be, kind, stream) == TooManyData(length)
            case Read(step', want) =>
              && Progress(be, kind, stream, step', length, want)
              && (step'.Rank() < step.Rank() || step'.Data?)
              && (want == 0 ==> step'.Data?)
              && (step.Data? ==> want == 0)
  {
    hide CheckIntegrity, DataLength;
    var h := be.HeaderLength();
    assert stream[..length][h..] == stream[h..length];
    MetaBounds(stream[h], kind);
  }

  /** receive_msg: however the line fragments, the result is `Receive` of the bytes on it. The
      buffer is written only below the backend's maximum message length. */
  method ReceiveMsg(be: Backend, kind: MsgType, line: Line, msg: array<byte>) returns (rc: int)
    requires msg.Length >= be.MaxAdu()
    modifies line, msg
    ensures msg[be.MaxAdu()..] == old(msg[be.MaxAdu()..])
    ensures match Receive(be, kind, old(line.pending))
            case Received(n) => rc == n && msg[..n] == old(line.pending)[..n] && line.pending == old(line.pending)[n..]
            case BadCrc(n) => rc == -1 && line.pending == old(line.pending)[n..]
            case TooManyData(n) => rc == -1 && line.pending == old(line.pending)[n..]
            case Starved => rc == -1 && line.pending == []
  {
    hide CheckIntegrity, MetaLength, DataLength, AfterStep, Progress, Receive;
    ghost var stream := line.pending;
    var lengthToRead: nat, msgLength: nat := be.HeaderLength() + 1, 0;
    var step := Function;
    ProgressStart(be, kind, stream);
    while lengthToRead != 0
      invariant msgLength + lengthToRead <= be.MaxAdu()
      invariant msgLength <= |stream| && line.pending == stream[msgLength..]
      invariant msg[..msgLength] == stream[..msgLength]
      invariant msg[be.MaxAdu()..] == old(msg[be.MaxAdu()..])
      invariant Progress(be, kind, stream, step, msgLength, lengthToRead)
      invariant lengthToRead == 0 ==> step.Data?
      decreases step.Rank(), lengthToRead
    {
      ghost var was := msg[..];
      rc := line.Recv(msg, msgLength, lengthToRead);
      if rc == -1 {
        StarvedLine(be, kind, stream, step, msgLength, lengthToRead);
        return;
      }
      Stored(was, msg[..], stream, msgLength, rc, be.MaxAdu());
      ProgressBytes(be, kind, stream, step, msgLength, lengthToRead, rc);
      msgLength := msgLength + rc;
      lengthToRead := lengthToRead - rc;
      if lengthToRead == 0 {
        AfterStepProgress(be, kind, stream, step, msgLength);
        assert msg[..msgLength] == stream[..msgLength];
        var plan := AfterStep(be, kind, msg[..msgLength], step);
        if plan.Refuse? { return -1; }
        ProgressEnd(be, kind, stream, plan.step, msgLength, plan.want);
        step, lengthToRead := plan.step, plan.want;
      }
    }
    ReceivedAll(be, kind, stream, msgLength);
    assert msg[..msgLength] == stream[..msgLength];
    var ok := Check(be, msg[..msgLength]);
    rc := if ok then msgLength else -1;
  }

  lemma MetaBounds(functionCode: byte, kind: MsgType)
    ensures MetaLength(functionCode, kind) <= 9
  {}

  lemma ProgressStart(be: Backend, kind: MsgType, stream: seq<byte>)
    ensures Progress(be, kind, stream, Function, 0, be.HeaderLength() + 1)
  {}

  lemma ProgressEnd(be: Backend, kind: MsgType, stream: seq<byte>, step: Step, length: nat, want: nat)
    requires length <= |stream| && Progress(be, kind, stream, step, length, want)
    ensures length + want <= be.MaxAdu()
  {}

  lemma ProgressBytes(be: Backend, kind: MsgType, stream: seq<byte>, step: Step, length: nat, want: nat, rc: nat)
    requires rc <= want && length + rc <= |stream| && Progress(be, kind, stream, step, length, want)
    ensures Progress(be, kind, stream, step, length + rc, want - rc)
  {}

  lemma ReceivedAll(be: Backend, kind: MsgType, stream: seq<byte>, length: nat)
    requires length <= |stream| && Progress(be, kind, stream, Data, length, 0)
    ensures length >= be.ChecksumLength()
    ensures Receive(be, kind, stream)
         == if CheckIntegrity(be, stream[..length]) then Received(length) else BadCrc(length)
  {
    hide CheckIntegrity, MetaLength, DataLength;
  }

  lemma StarvedLine(be: Backend, kind: MsgType, stream: seq<byte>, step: Step, length: nat, want: nat)
    requires length <= |stream| && stream[length..] == [] && want > 0
    requires Progress(be, kind, stream, step, length, want)
    ensures Receive(be, kind, stream).Starved?
  {
    hide CheckIntegrity, MetaLength, DataLength;
    assert |stream| == length;
  }

  /** What one recv leaves in the buffer. */
  lemma Stored(was: seq<byte>, now: seq<byte>, stream: seq<byte>, at: nat, rc: nat, max: nat)
    requires at + rc <= |stream| && at + rc <= max <= |was|
    requires was[..at] == stream[..at]
    requires now == was[..at] + stream[at..][..rc] + was[at + rc..]
    ensures now[..at + rc] == stream[..at + rc]
    ensures now[max..] == was[max..]
    ensures stream[at..][rc..] == stream[at + rc..]
  {}
}
