/** CRC-16 of the RTU framing: the two lookup tables of modbus-rtu.c against the
    bit-by-bit definition with the reflected polynomial 0xA001, and what the
    integrity check is able to detect. */
module ModbusCrc {

  // ---------------------------------------------------------------- lookup tables

  /** One row of sixteen table entries, read at column `j`. */
  function Cell(j: bv8, v0: bv8, v1: bv8, v2: bv8, v3: bv8, v4: bv8, v5: bv8, v6: bv8, v7: bv8,
                v8: bv8, v9: bv8, v10: bv8, v11: bv8, v12: bv8, v13: bv8, v14: bv8, v15: bv8): bv8
  {
    match j
    case 0 => v0
    case 1 => v1
    case 2 => v2
    case 3 => v3
    case 4 => v4
    case 5 => v5
    case 6 => v6
    case 7 => v7
    case 8 => v8
    case 9 => v9
    case 10 => v10
    case 11 => v11
    case 12 => v12
    case 13 => v13
    case 14 => v14
    case _ => v15
  }

  /** table_crc_hi */
  function TableHi(i: bv8): bv8 {
    var low := i & 0xF;
    match i >> 4
    case 0 => Cell(low, 0x00, 0xC1, 0x81, 0x40, 0x01, 0xC0, 0x80, 0x41, 0x01, 0xC0, 0x80, 0x41, 0x00, 0xC1, 0x81, 0x40)
    case 1 => Cell(low, 0x01, 0xC0, 0x80, 0x41, 0x00, 0xC1, 0x81, 0x40, 0x00, 0xC1, 0x81, 0x40, 0x01, 0xC0, 0x80, 0x41)
    case 2 => Cell(low, 0x01, 0xC0, 0x80, 0x41, 0x00, 0xC1, 0x81, 0x40, 0x00, 0xC1, 0x81, 0x40, 0x01, 0xC0, 0x80, 0x41)
    case 3 => Cell(low, 0x00, 0xC1, 0x81, 0x40, 0x01, 0xC0, 0x80, 0x41, 0x01, 0xC0, 0x80, 0x41, 0x00, 0xC1, 0x81, 0x40)
    case 4 => Cell(low, 0x01, 0xC0, 0x80, 0x41, 0x00, 0xC1, 0x81, 0x40, 0x00, 0xC1, 0x81, 0x40, 0x01, 0xC0, 0x80, 0x41)
    case 5 => Cell(low, 0x00, 0xC1, 0x81, 0x40, 0x01, 0xC0, 0x80, 0x41, 0x01, 0xC0, 0x80, 0x41, 0x00, 0xC1, 0x81, 0x40)
    case 6 => Cell(low, 0x00, 0xC1, 0x81, 0x40, 0x01, 0xC0, 0x80, 0x41, 0x01, 0xC0, 0x80, 0x41, 0x00, 0xC1, 0x81, 0x40)
    case 7 => Cell(low, 0x01, 0xC0, 0x80, 0x41, 0x00, 0xC1, 0x81, 0x40, 0x00, 0xC1, 0x81, 0x40, 0x01, 0xC0, 0x80, 0x41)
    case 8 => Cell(low, 0x01, 0xC0, 0x80, 0x41, 0x00, 0xC1, 0x81, 0x40, 0x00, 0xC1, 0x81, 0x40, 0x01, 0xC0, 0x80, 0x41)
    case 9 => Cell(low, 0x00, 0xC1, 0x81, 0x40, 0x01, 0xC0, 0x80, 0x41, 0x01, 0xC0, 0x80, 0x41, 0x00, 0xC1, 0x81, 0x40)
    case 10 => Cell(low, 0x00, 0xC1, 0x81, 0x40, 0x01, 0xC0, 0x80, 0x41, 0x01, 0xC0, 0x80, 0x41, 0x00, 0xC1, 0x81, 0x40)
    case 11 => Cell(low, 0x01, 0xC0, 0x80, 0x41, 0x00, 0xC1, 0x81, 0x40, 0x00, 0xC1, 0x81, 0x40, 0x01, 0xC0, 0x80, 0x41)
    case 12 => Cell(low, 0x00, 0xC1, 0x81, 0x40, 0x01, 0xC0, 0x80, 0x41, 0x01, 0xC0, 0x80, 0x41, 0x00, 0xC1, 0x81, 0x40)
    case 13 => Cell(low, 0x01, 0xC0, 0x80, 0x41, 0x00, 0xC1, 0x81, 0x40, 0x00, 0xC1, 0x81, 0x40, 0x01, 0xC0, 0x80, 0x41)
    case 14 => Cell(low, 0x01, 0xC0, 0x80, 0x41, 0x00, 0xC1, 0x81, 0x40, 0x00, 0xC1, 0x81, 0x40, 0x01, 0xC0, 0x80, 0x41)
    case _ => Cell(low, 0x00, 0xC1, 0x81, 0x40, 0x01, 0xC0, 0x80, 0x41, 0x01, 0xC0, 0x80, 0x41, 0x00, 0xC1, 0x81, 0x40)
  }

  /** table_crc_lo */
  function TableLo(i: bv8): bv8 {
    var low := i & 0xF;
    match i >> 4
    case 0 => Cell(low, 0x00, 0xC0, 0xC1, 0x01, 0xC3, 0x03, 0x02, 0xC2, 0xC6, 0x06, 0x07, 0xC7, 0x05, 0xC5, 0xC4, 0x04)
    case 1 => Cell(low, 0xCC, 0x0C, 0x0D, 0xCD, 0x0F, 0xCF, 0xCE, 0x0E, 0x0A, 0xCA, 0xCB, 0x0B, 0xC9, 0x09, 0x08, 0xC8)
    case 2 => Cell(low, 0xD8, 0x18, 0x19, 0xD9, 0x1B, 0xDB, 0xDA, 0x1A, 0x1E, 0xDE, 0xDF, 0x1F, 0xDD, 0x1D, 0x1C, 0xDC)
    case 3 => Cell(low, 0x14, 0xD4, 0xD5, 0x15, 0xD7, 0x17, 0x16, 0xD6, 0xD2, 0x12, 0x13, 0xD3, 0x11, 0xD1, 0xD0, 0x10)
    case 4 => Cell(low, 0xF0, 0x30, 0x31, 0xF1, 0x33, 0xF3, 0xF2, 0x32, 0x36, 0xF6, 0xF7, 0x37, 0xF5, 0x35, 0x34, 0xF4)
    case 5 => Cell(low, 0x3C, 0xFC, 0xFD, 0x3D, 0xFF, 0x3F, 0x3E, 0xFE, 0xFA, 0x3A, 0x3B, 0xFB, 0x39, 0xF9, 0xF8, 0x38)
    case 6 => Cell(low, 0x28, 0xE8, 0xE9, 0x29, 0xEB, 0x2B, 0x2A, 0xEA, 0xEE, 0x2E, 0x2F, 0xEF, 0x2D, 0xED, 0xEC, 0x2C)
    case 7 => Cell(low, 0xE4, 0x24, 0x25, 0xE5, 0x27, 0xE7, 0xE6, 0x26, 0x22, 0xE2, 0xE3, 0x23, 0xE1, 0x21, 0x20, 0xE0)
    case 8 => Cell(low, 0xA0, 0x60, 0x61, 0xA1, 0x63, 0xA3, 0xA2, 0x62, 0x66, 0xA6, 0xA7, 0x67, 0xA5, 0x65, 0x64, 0xA4)
    case 9 => Cell(low, 0x6C, 0xAC, 0xAD, 0x6D, 0xAF, 0x6F, 0x6E, 0xAE, 0xAA, 0x6A, 0x6B, 0xAB, 0x69, 0xA9, 0xA8, 0x68)
    case 10 => Cell(low, 0x78, 0xB8, 0xB9, 0x79, 0xBB, 0x7B, 0x7A, 0xBA, 0xBE, 0x7E, 0x7F, 0xBF, 0x7D, 0xBD, 0xBC, 0x7C)
    case 11 => Cell(low, 0xB4, 0x74, 0x75, 0xB5, 0x77, 0xB7, 0xB6, 0x76, 0x72, 0xB2, 0xB3, 0x73, 0xB1, 0x71, 0x70, 0xB0)
    case 12 => Cell(low, 0x50, 0x90, 0x91, 0x51, 0x93, 0x53, 0x52, 0x92, 0x96, 0x56, 0x57, 0x97, 0x55, 0x95, 0x94, 0x54)
    case 13 => Cell(low, 0x9C, 0x5C, 0x5D, 0x9D, 0x5F, 0x9F, 0x9E, 0x5E, 0x5A, 0x9A, 0x9B, 0x5B, 0x99, 0x59, 0x58, 0x98)
    case 14 => Cell(low, 0x88, 0x48, 0x49, 0x89, 0x4B, 0x8B, 0x8A, 0x4A, 0x4E, 0x8E, 0x8F, 0x4F, 0x8D, 0x4D, 0x4C, 0x8C)
    case _ => Cell(low, 0x44, 0x84, 0x85, 0x45, 0x87, 0x47, 0x46, 0x86, 0x82, 0x42, 0x43, 0x83, 0x41, 0x81, 0x80, 0x40)
  }

  // ---------------------------------------------------------------- the reference CRC

  // The bit-vector operations are named so that only the small facts about them reach the
  // bit-level solver; everything above them is equational.
  function Xor(c: bv16, d: bv16): bv16 { c ^ d }
  function Mix(a: bv8, b: bv8): bv8 { a ^ b }
  function Widen(b: bv8): bv16 { b as bv16 }
  function Up(b: bv8): bv16 { b as bv16 << 8 }

  /** The register bytes in the order in which they travel: low byte first. */
  function First(c: bv16): bv8 { (c & 0xFF) as bv8 }
  function Second(c: bv16): bv8 { (c >> 8) as bv8 }
  function Word(first: bv8, second: bv8): bv16 { first as bv16 | (second as bv16 << 8) }

  /** One bit of the reflected CRC-16: the polynomial 0xA001 is folded in when a 1 falls out. */
  function Shift1(c: bv16): bv16 { (c >> 1) ^ ((c & 1) * 0xA001) }
  function Shift2(c: bv16): bv16 { Shift1(Shift1(c)) }
  function Shift4(c: bv16): bv16 { Shift2(Shift2(c)) }
  function Shift8(c: bv16): bv16 { Shift4(Shift4(c)) }

  /** The bit-by-bit CRC register after the bytes of `msg`, from register `c`. */
  function BitCrc(c: bv16, msg: seq<bv8>): bv16
    decreases |msg|
  {
    if msg == [] then c else BitCrc(Shift8(Xor(c, Widen(msg[0]))), msg[1..])
  }

  const SEED: bv16 := 0xFFFF

  // ---------------------------------------------------------------- tables = eight shifts

  lemma TableHiIsShift8(i: bv8)
    ensures TableHi(i) == First(Shift8(Widen(i)))
  {}

  lemma TableLoEighth0(i: bv8)
    requires i >> 5 == 0
    ensures TableLo(i) == Second(Shift8(Widen(i)))
  {
    assert i >> 4 == 0 || i >> 4 == 1;
  }

  lemma TableLoEighth1(i: bv8)
    requires i >> 5 == 1
    ensures TableLo(i) == Second(Shift8(Widen(i)))
  {}

  lemma TableLoQuarter1(i: bv8)
    requires i >> 6 == 1
    ensures TableLo(i) == Second(Shift8(Widen(i)))
  {}

  lemma TableLoUpper(i: bv8)
    requires i >> 7 == 1
    ensures TableLo(i) == Second(Shift8(Widen(i)))
  {}

  lemma Parts(i: bv8)
    ensures i >> 5 == 0 || i >> 5 == 1 || i >> 6 == 1 || i >> 7 == 1
  {}

  lemma TableLoIsShift8(i: bv8)
    ensures TableLo(i) == Second(Shift8(Widen(i)))
  {
    hide *;
    Parts(i);
    if i >> 5 == 0 { TableLoEighth0(i); }
    else if i >> 5 == 1 { TableLoEighth1(i); }
    else if i >> 6 == 1 { TableLoQuarter1(i); }
    else { TableLoUpper(i); }
  }

  // ---------------------------------------------------------------- the shift is linear and injective

  lemma Shift1Linear(c: bv16, d: bv16)
    ensures Shift1(Xor(c, d)) == Xor(Shift1(c), Shift1(d))
  {}

  lemma Shift2Linear(c: bv16, d: bv16)
    ensures Shift2(Xor(c, d)) == Xor(Shift2(c), Shift2(d))
  {
    hide Shift1, Xor;
    Shift1Linear(c, d);
    Shift1Linear(Shift1(c), Shift1(d));
  }

  lemma Shift4Linear(c: bv16, d: bv16)
    ensures Shift4(Xor(c, d)) == Xor(Shift4(c), Shift4(d))
  {
    hide Shift2, Xor;
    Shift2Linear(c, d);
    Shift2Linear(Shift2(c), Shift2(d));
  }

  lemma Shift8Linear(c: bv16, d: bv16)
    ensures Shift8(Xor(c, d)) == Xor(Shift8(c), Shift8(d))
  {
    hide Shift4, Xor;
    Shift4Linear(c, d);
    Shift4Linear(Shift4(c), Shift4(d));
  }

  lemma Shift8Injective(c: bv16, d: bv16)
    requires Shift8(c) == Shift8(d)
    ensures c == d
  {}

  /** A byte in the upper half just moves down: no feedback reaches it within eight shifts. */
  lemma Shift8Up(b: bv8)
    ensures Shift8(Up(b)) == Widen(b)
  {}

  lemma UpLow(c: bv16)
    ensures c == Xor(Up(Second(c)), Widen(First(c)))
  {}

  lemma Shift8Split(c: bv16)
    ensures Shift8(c) == Xor(Widen(Second(c)), Shift8(Widen(First(c))))
  {
    hide *;
    UpLow(c);
    Shift8Linear(Up(Second(c)), Widen(First(c)));
    Shift8Up(Second(c));
  }

  // ---------------------------------------------------------------- crc16

  lemma BytesOfXor(c: bv16, b: bv8)
    ensures First(Xor(c, Widen(b))) == Mix(First(c), b)
    ensures Second(Xor(c, Widen(b))) == Second(c)
  {}

  lemma BytesOfSplit(b: bv8, s: bv16)
    ensures First(Xor(Widen(b), s)) == Mix(b, First(s))
    ensures Second(Xor(Widen(b), s)) == Second(s)
  {}

  /** One turn of the loop in crc16 is one reference step: source crc_hi is the byte sent
      first, crc_lo the byte sent second. */
  lemma TableStep(c: bv16, b: bv8)
    ensures var i := Mix(First(c), b);
            var next := Shift8(Xor(c, Widen(b)));
            First(next) == Mix(Second(c), TableHi(i)) && Second(next) == TableLo(i)
  {
    hide *;
    var i := Mix(First(c), b);
    BytesOfXor(c, b);
    Shift8Split(Xor(c, Widen(b)));
    BytesOfSplit(Second(c), Shift8(Widen(i)));
    TableHiIsShift8(i);
    TableLoIsShift8(i);
  }

  /** The value crc16 returns: crc_hi << 8 | crc_lo. */
  function Joined(hi: bv8, lo: bv8): bv16 { (hi as bv16 << 8) | lo as bv16 }

  lemma JoinedBytes(hi: bv8, lo: bv8)
    ensures Second(Joined(hi, lo)) == hi && First(Joined(hi, lo)) == lo
  {}

  lemma SeedBytes()
    ensures First(SEED) == 0xFF && Second(SEED) == 0xFF
  {}

  lemma BitCrcNil(c: bv16)
    ensures BitCrc(c, []) == c
  {}

  lemma BitCrcCons(c: bv16, msg: seq<bv8>)
    requires msg != []
    ensures BitCrc(c, msg) == BitCrc(Shift8(Xor(c, Widen(msg[0]))), msg[1..])
  {
    hide Shift8, Xor, Widen;
  }

  /** crc16: the table loop computes the bit-by-bit CRC. Its result has the byte to be sent
      first in the upper half. */
  method Crc16(buffer: seq<bv8>) returns (crc: bv16)
    ensures Second(crc) == First(BitCrc(SEED, buffer))
    ensures First(crc) == Second(BitCrc(SEED, buffer))
  {
    hide *;
    var crcHi: bv8, crcLo: bv8 := 0xFF, 0xFF;
    var n := 0;
    ghost var c := SEED;
    SeedBytes();
    assert buffer[0..] == buffer;
    while n < |buffer|
      invariant 0 <= n <= |buffer|
      invariant crcHi == First(c) && crcLo == Second(c)
      invariant BitCrc(SEED, buffer) == BitCrc(c, buffer[n..])
    {
      TableStep(c, buffer[n]);
      BitCrcCons(c, buffer[n..]);
      assert buffer[n..][1..] == buffer[n + 1..];
      c := Shift8(Xor(c, Widen(buffer[n])));
      var i := Mix(crcHi, buffer[n]);
      crcHi := Mix(crcLo, TableHi(i));
      crcLo := TableLo(i);
      n := n + 1;
    }
    assert buffer[n..] == [];
    BitCrcNil(c);
    JoinedBytes(crcHi, crcLo);
    crc := Joined(crcHi, crcLo);
  }

  // ---------------------------------------------------------------- what the check detects

  /** _modbus_rtu_send_msg_pre: the message with its CRC appended. */
  function Sealed(msg: seq<bv8>): (frame: seq<bv8>)
    ensures |frame| == |msg| + 2
  {
    var c := BitCrc(SEED, msg);
    msg + [First(c), Second(c)]
  }

  /** _modbus_rtu_check_integrity, on a frame long enough to hold a CRC. */
  predicate Intact(frame: seq<bv8>)
    requires |frame| >= 2
  {
    var n := |frame| - 2;
    var c := BitCrc(SEED, frame[..n]);
    First(c) == frame[n] && Second(c) == frame[n + 1]
  }

  lemma {:induction false} BitCrcAppend(c: bv16, a: seq<bv8>, b: seq<bv8>)
    ensures BitCrc(c, a + b) == BitCrc(BitCrc(c, a), b)
    decreases |a|
  {
    hide *;
    if a == [] {
      assert a + b == b;
      BitCrcNil(c);
    } else {
      assert (a + b)[1..] == a[1..] + b;
      BitCrcCons(c, a);
      BitCrcCons(c, a + b);
      BitCrcAppend(Shift8(Xor(c, Widen(a[0]))), a[1..], b);
    }
  }

  lemma XorCancel(c: bv16, d: bv16, x: bv16)
    requires Xor(c, x) == Xor(d, x)
    ensures c == d
  {}

  lemma {:induction false} BitCrcInjective(c: bv16, d: bv16, msg: seq<bv8>)
    requires BitCrc(c, msg) == BitCrc(d, msg)
    ensures c == d
    decreases |msg|
  {
    hide *;
    if msg == [] {
      BitCrcNil(c);
      BitCrcNil(d);
    } else {
      var b := Widen(msg[0]);
      BitCrcCons(c, msg);
      BitCrcCons(d, msg);
      BitCrcInjective(Shift8(Xor(c, b)), Shift8(Xor(d, b)), msg[1..]);
      Shift8Injective(Xor(c, b), Xor(d, b));
      XorCancel(c, d, b);
    }
  }

  lemma WordXor(c: bv16, x: bv8, y: bv8)
    ensures Xor(c, Word(x, y)) == Xor(Xor(c, Widen(x)), Up(y))
  {}

  /** Two bytes are absorbed as one 16-bit word. */
  lemma TwoBytes(c: bv16, x: bv8, y: bv8)
    ensures BitCrc(c, [x, y]) == Shift8(Shift8(Xor(c, Word(x, y))))
  {
    hide *;
    var cx := Xor(c, Widen(x));
    WordXor(c, x, y);
    Shift8Linear(cx, Up(y));
    Shift8Up(y);
    assert [x, y][1..] == [y] && [y][1..] == [];
    BitCrcCons(c, [x, y]);
    BitCrcCons(Shift8(cx), [y]);
    BitCrcNil(Shift8(Xor(Shift8(cx), Widen(y))));
  }

  lemma Shift8Zero()
    ensures Shift8(0) == 0
  {}

  lemma ZeroWord(c: bv16, x: bv8, y: bv8)
    requires Xor(c, Word(x, y)) == 0
    ensures First(c) == x && Second(c) == y
  {}

  lemma OwnWord(c: bv16)
    ensures Xor(c, Word(First(c), Second(c))) == 0
  {}

  /** The check accepts exactly the frames whose CRC, taken over the frame together with its
      own CRC bytes, is zero. */
  lemma IntactIffZeroResidue(frame: seq<bv8>)
    requires |frame| >= 2
    ensures Intact(frame) <==> BitCrc(SEED, frame) == 0
  {
    hide BitCrc, Shift8, Xor, Word, First, Second;
    var n := |frame| - 2;
    var c := BitCrc(SEED, frame[..n]);
    var x := Xor(c, Word(frame[n], frame[n + 1]));
    assert frame == frame[..n] + [frame[n], frame[n + 1]];
    BitCrcAppend(SEED, frame[..n], [frame[n], frame[n + 1]]);
    TwoBytes(c, frame[n], frame[n + 1]);
    OwnWord(c);
    Shift8Zero();
    if Shift8(Shift8(x)) == 0 {
      Shift8Injective(Shift8(x), 0);
      Shift8Injective(x, 0);
      ZeroWord(c, frame[n], frame[n + 1]);
    }
  }

  lemma SealedIsIntact(msg: seq<bv8>)
    ensures Intact(Sealed(msg))
  {
    hide BitCrc, First, Second;
    assert Sealed(msg)[..|msg|] == msg;
  }

  lemma WordInjective(c: bv16, x: bv8, y: bv8, u: bv8, v: bv8)
    requires Xor(c, Word(x, y)) == Xor(c, Word(u, v))
    ensures x == u && y == v
  {}

  lemma AroundWindow(frame: seq<bv8>, k: nat)
    requires k + 2 <= |frame|
    ensures BitCrc(SEED, frame)
         == BitCrc(BitCrc(BitCrc(SEED, frame[..k]), [frame[k], frame[k + 1]]), frame[k + 2..])
  {
    hide *;
    var w := [frame[k], frame[k + 1]];
    assert frame == frame[..k] + (w + frame[k + 2..]);
    BitCrcAppend(SEED, frame[..k], w + frame[k + 2..]);
    BitCrcAppend(BitCrc(SEED, frame[..k]), w, frame[k + 2..]);
  }

  /** Two frames that differ at most in two adjacent bytes and have the same CRC are equal. */
  lemma WindowDetermined(f: seq<bv8>, g: seq<bv8>, k: nat)
    requires |f| == |g| && k + 2 <= |f|
    requires f[..k] == g[..k] && f[k + 2..] == g[k + 2..]
    requires BitCrc(SEED, f) == BitCrc(SEED, g)
    ensures f == g
  {
    hide *;
    var c := BitCrc(SEED, f[..k]);
    AroundWindow(f, k);
    AroundWindow(g, k);
    BitCrcInjective(BitCrc(c, [f[k], f[k + 1]]), BitCrc(c, [g[k], g[k + 1]]), f[k + 2..]);
    TwoBytes(c, f[k], f[k + 1]);
    TwoBytes(c, g[k], g[k + 1]);
    var p, q := Xor(c, Word(f[k], f[k + 1])), Xor(c, Word(g[k], g[k + 1]));
    Shift8Injective(Shift8(p), Shift8(q));
    Shift8Injective(p, q);
    WordInjective(c, f[k], f[k + 1], g[k], g[k + 1]);
    assert f == f[..k] + [f[k], f[k + 1]] + f[k + 2..];
    assert g == g[..k] + [g[k], g[k + 1]] + g[k + 2..];
  }

  /** Any alteration confined to two adjacent bytes of a good frame (data, CRC or both) is
      rejected. */
  lemma AdjacentAlterationRejected(frame: seq<bv8>, altered: seq<bv8>, k: nat)
    requires |altered| == |frame| && k + 2 <= |frame|
    requires Intact(frame)
    requires frame[..k] == altered[..k] && frame[k + 2..] == altered[k + 2..]
    requires altered != frame
    ensures !Intact(altered)
  {
    hide *;
    IntactIffZeroResidue(frame);
    IntactIffZeroResidue(altered);
    if Intact(altered) {
      WindowDetermined(frame, altered, k);
    }
  }

  /** The single-byte case, at any position of the frame that was sent. */
  lemma SingleByteAlterationRejected(msg: seq<bv8>, k: nat, b: bv8)
    requires k < |msg| + 2 && b != Sealed(msg)[k]
    ensures !Intact(Sealed(msg)[k := b])
  {
    hide *;
    SealedIsIntact(msg);
    var frame := Sealed(msg);
    var start := if k < |msg| then k else |msg|;
    AdjacentAlterationRejected(frame, frame[k := b], start);
  }
}
