/** Packing of coils and registers into message bytes: the loops of modbus-data.c and of
    modbus.c, and the round trips between them. */
module ModbusBits {

  import opened Bytes

  /** Table cells and caller arrays that hold only OFF and ON. */
  predicate Binary(bits: seq<byte>) {
    forall i | 0 <= i < |bits| :: bits[i] <= 1
  }

  // ---------------------------------------------------------------- one byte

  function Pow2(k: nat): (p: int)
    ensures p >= 1
  {
    if k == 0 then 1 else 2 * Pow2(k - 1)
  }

  /** Bit `k` of `v`: the C test v & (1 << k). */
  function Bit(v: int, k: nat): (b: byte)
    requires v >= 0
    ensures b <= 1
    decreases k
  {
    if k == 0 then v % 2 else Bit(v / 2, k - 1)
  }

  /** The number whose bits, least significant first, are `bits`. */
  function BitsValue(bits: seq<byte>): int {
    if bits == [] then 0 else bits[0] + 2 * BitsValue(bits[1..])
  }

  lemma {:induction false} BitsValueBound(bits: seq<byte>)
    requires Binary(bits)
    ensures 0 <= BitsValue(bits) < Pow2(|bits|)
  {
    if bits != [] { BitsValueBound(bits[1..]); }
  }

  lemma ByteBound(bits: seq<byte>)
    requires Binary(bits) && |bits| <= 8
    ensures 0 <= BitsValue(bits) < 0x100
  {
    BitsValueBound(bits);
    Pow2Monotone(|bits|, 8);
    assert Pow2(8) == 256 by { assert Pow2(4) == 16; }
  }

  function ByteValue(bits: seq<byte>): (b: byte)
    requires Binary(bits) && |bits| <= 8
    ensures b == BitsValue(bits)
  {
    ByteBound(bits);
    BitsValue(bits)
  }

  lemma {:induction false} Pow2Monotone(a: nat, b: nat)
    requires a <= b
    ensures Pow2(a) <= Pow2(b)
    decreases b
  {
    if a < b { Pow2Monotone(a, b - 1); }
  }

  /** One step: the lowest bit, and the rest shifted down. */
  lemma BitsValueStep(bits: seq<byte>)
    requires Binary(bits) && bits != []
    ensures BitsValue(bits[1..]) >= 0 && BitsValue(bits) == bits[0] + 2 * BitsValue(bits[1..])
    ensures BitsValue(bits) >= 0 && BitsValue(bits) % 2 == bits[0] && BitsValue(bits) / 2 == BitsValue(bits[1..])
  {
    BitsValueBound(bits[1..]);
    Halves(bits[0], BitsValue(bits[1..]));
  }

  lemma Halves(b: int, rest: int)
    requires 0 <= b <= 1 && rest >= 0
    ensures (b + 2 * rest) % 2 == b && (b + 2 * rest) / 2 == rest
  {}

  lemma {:induction false} BitOfBitsValue(bits: seq<byte>, k: nat)
    requires Binary(bits) && k < |bits|
    ensures BitsValue(bits) >= 0 && Bit(BitsValue(bits), k) == bits[k]
    decreases k
  {
    hide BitsValue;
    BitsValueStep(bits);
    if k > 0 { BitOfBitsValue(bits[1..], k - 1); }
  }

  /** Setting the next higher bit: byte |= bit << shift. */
  lemma {:induction false} BitsValueExtend(bits: seq<byte>, b: byte)
    ensures BitsValue(bits + [b]) == BitsValue(bits) + b * Pow2(|bits|)
  {
    if bits == [] {
      assert bits + [b] == [b];
    } else {
      assert (bits + [b])[1..] == bits[1..] + [b];
      BitsValueExtend(bits[1..], b);
    }
  }

  // ---------------------------------------------------------------- coil arrays

  function ByteCount(nb: nat): nat { nb / 8 + (if nb % 8 != 0 then 1 else 0) }

  /** The bits of byte number `k` of the packed form. */
  function Group(bits: seq<byte>, k: nat): seq<byte>
    requires k < ByteCount(|bits|)
  {
    bits[8 * k..if 8 * k + 8 <= |bits| then 8 * k + 8 else |bits|]
  }

  function Packed(bits: seq<byte>): (bytes: seq<byte>)
    requires Binary(bits)
    ensures |bytes| == ByteCount(|bits|)
    ensures forall k | 0 <= k < |bytes| :: bytes[k] == BitsValue(Group(bits, k))
  {
    seq(ByteCount(|bits|), k requires 0 <= k < ByteCount(|bits|) => ByteValue(Group(bits, k)))
  }

  function BitAt(bytes: seq<byte>, i: nat): (b: byte)
    requires i < 8 * |bytes|
    ensures b <= 1
  {
    Bit(bytes[i / 8], i % 8)
  }

  function Unpacked(bytes: seq<byte>, nb: nat): (bits: seq<byte>)
    requires nb <= 8 * |bytes|
    ensures |bits| == nb && Binary(bits)
    ensures forall i | 0 <= i < nb :: bits[i] == BitAt(bytes, i)
  {
    seq(nb, i requires 0 <= i < nb => BitAt(bytes, i))
  }

  lemma UnpackPacked(bits: seq<byte>)
    requires Binary(bits)
    ensures Unpacked(Packed(bits), |bits|) == bits
  {
    var bytes := Packed(bits);
    forall i | 0 <= i < |bits| ensures Unpacked(bytes, |bits|)[i] == bits[i] {
      BitOfBitsValue(Group(bits, i / 8), i % 8);
    }
  }

  /** What write_bits sends for a caller array: zero is OFF, anything else is ON. */
  function Normalized(src: seq<byte>): (bits: seq<byte>)
    ensures |bits| == |src| && Binary(bits)
    ensures forall i | 0 <= i < |src| :: bits[i] == if src[i] != 0 then 1 else 0
  {
    seq(|src|, i requires 0 <= i < |src| => if src[i] != 0 then 1 else 0)
  }

  // ---------------------------------------------------------------- the packing loops

  lemma PackedPrefix(bits: seq<byte>, k: nat)
    requires Binary(bits) && k < ByteCount(|bits|)
    ensures Packed(bits)[..k + 1] == Packed(bits)[..k] + [ByteValue(Group(bits, k))]
  {}

  lemma OneMoreBit(bits: seq<byte>, from: nat, to: nat)
    requires from <= to < |bits|
    ensures BitsValue(bits[from..to + 1]) == BitsValue(bits[from..to]) + bits[to] * Pow2(to - from)
  {
    BitsValueExtend(bits[from..to], bits[to]);
    assert bits[from..to + 1] == bits[from..to] + [bits[to]];
  }

  /** response_io_status: appends the packed cells [address, address + nb) to the response. */
  method ResponseIoStatus(address: nat, nb: nat, tab: array<byte>, rsp: seq<byte>) returns (out: seq<byte>)
    requires address + nb <= tab.Length && Binary(tab[..])
    ensures Binary(tab[address..address + nb])
    ensures out == rsp + Packed(tab[address..address + nb])
  {
    hide BitsValue, Pow2, Packed;
    ghost var bits := tab[address..address + nb];
    assert Binary(bits) by { CellsBinary(tab[..], address, nb); assert bits == tab[..][address..address + nb]; }
    var shift, acc, i := 0, 0, address;
    ghost var done: nat := 0;
    out := rsp;
    assert acc == BitsValue([]) by { EmptyValue(); }
    while i < address + nb
      invariant address <= i <= address + nb
      invariant 0 <= shift < 8
      invariant i - address == 8 * done + shift && done <= ByteCount(nb)
      invariant acc == BitsValue(bits[8 * done..i - address])
      invariant out == rsp + Packed(bits)[..done]
    {
      OneMoreBit(bits, 8 * done, i - address);
      acc := acc + tab[i] * Pow2(shift);
      i := i + 1;
      if shift == 7 {
        assert bits[8 * done..i - address] == Group(bits, done);
        PackedPrefix(bits, done);
        out := out + [acc];
        done := done + 1;
        EmptyValue();
        assert bits[8 * done..i - address] == [];
        acc, shift := 0, 0;
      } else {
        shift := shift + 1;
      }
    }
    if shift != 0 {
      assert bits[8 * done..i - address] == Group(bits, done);
      PackedPrefix(bits, done);
      out := out + [acc];
      done := done + 1;
    }
    assert Packed(bits)[..done] == Packed(bits);
  }

  lemma EmptyValue()
    ensures BitsValue([]) == 0
  {}

  lemma CellsBinary(tab: seq<byte>, address: nat, nb: nat)
    requires address + nb <= |tab| && Binary(tab)
    ensures Binary(tab[address..address + nb])
  {}

  lemma BitAtDef(bytes: seq<byte>, i: nat)
    requires i < 8 * |bytes|
    ensures BitAt(bytes, i) == Bit(bytes[i / 8], i % 8)
  {}

  /** modbus_set_bits_from_bytes: only the cells between index and index + nb change. */
  method SetBitsFromBytes(dest: array<byte>, index: nat, nb: nat, bytes: seq<byte>)
    requires index + nb <= dest.Length && nb <= 8 * |bytes|
    modifies dest
    ensures dest[..] == old(dest[..index]) + Unpacked(bytes, nb) + old(dest[index + nb..])
  {
    hide Bit, BitAt, Unpacked, Overlaid;
    ghost var before := dest[..];
    var shift := 0;
    var i := index;
    NothingUnpacked(before, index, bytes);
    while i < index + nb
      invariant index <= i <= index + nb
      invariant shift == (i - index) % 8
      invariant dest[..] == Overlaid(before, index, Unpacked(bytes, i - index))
    {
      ghost var k := i - index;
      UnpackedStep(bytes, k);
      BitAtDef(bytes, k);
      StoreNext(dest, i, Bit(bytes[(i - index) / 8], shift), before, index, Unpacked(bytes, k));
      shift := (shift + 1) % 8;
      i := i + 1;
    }
    UnpackedSize(bytes, nb);
    OverlaidDef(before, index, Unpacked(bytes, nb));
  }

  /** `before` with the cells from `at` on replaced. */
  ghost function Overlaid(before: seq<byte>, at: nat, s: seq<byte>): seq<byte> {
    if at + |s| <= |before| then before[..at] + s + before[at + |s|..] else []
  }

  lemma OverlaidDef(before: seq<byte>, at: nat, s: seq<byte>)
    requires at + |s| <= |before|
    ensures Overlaid(before, at, s) == before[..at] + s + before[at + |s|..]
  {}

  lemma NothingUnpacked(before: seq<byte>, at: nat, bytes: seq<byte>)
    requires at <= |before|
    ensures Overlaid(before, at, Unpacked(bytes, 0)) == before
  {}

  lemma UnpackedSize(bytes: seq<byte>, k: nat)
    requires k <= 8 * |bytes|
    ensures |Unpacked(bytes, k)| == k
  {}

  lemma UnpackedStep(bytes: seq<byte>, k: nat)
    requires k < 8 * |bytes|
    ensures |Unpacked(bytes, k)| == k
    ensures Unpacked(bytes, k + 1) == Unpacked(bytes, k) + [BitAt(bytes, k)]
  {}

  method StoreNext(dest: array<byte>, i: nat, b: byte, ghost before: seq<byte>, ghost at: nat, ghost s: seq<byte>)
    requires i == at + |s| < dest.Length && dest[..] == Overlaid(before, at, s) && |before| == dest.Length
    modifies dest
    ensures dest[..] == Overlaid(before, at, s + [b])
  {
    dest[i] := b;
  }

  /** The decoding loop of read_io_status: eight bits per byte until nb are filled. */
  method DecodeBits(bytes: seq<byte>, nb: nat, dest: array<byte>)
    requires nb <= dest.Length && nb <= 8 * |bytes|
    modifies dest
    ensures dest[..nb] == Unpacked(bytes, nb)
    ensures dest[nb..] == old(dest[nb..])
  {
    hide Bit, BitAt;
    var pos := 0;
    var i := 0;
    while i < |bytes|
      invariant 0 <= i <= |bytes|
      invariant pos == if 8 * i <= nb then 8 * i else nb
      invariant forall p | 0 <= p < pos :: dest[p] == BitAt(bytes, p)
      invariant dest[nb..] == old(dest[nb..])
    {
      var temp := bytes[i];
      var bit := 0;
      while bit < 8 && pos < nb
        invariant 0 <= bit <= 8 && pos == if 8 * i + bit <= nb then 8 * i + bit else nb
        invariant forall p | 0 <= p < pos :: dest[p] == BitAt(bytes, p)
        invariant dest[nb..] == old(dest[nb..])
        decreases 8 - bit
      {
        BitAtDef(bytes, pos);
        dest[pos] := Bit(temp, bit);
        pos := pos + 1;
        bit := bit + 1;
      }
      i := i + 1;
    }
  }

  /** One byte of the encoding loop of modbus_write_bits. */
  method EncodeByte(src: seq<byte>, i: nat) returns (acc: byte, pos: nat)
    requires i < ByteCount(|src|)
    ensures acc == ByteValue(Group(Normalized(src), i))
    ensures pos == if 8 * i + 8 <= |src| then 8 * i + 8 else |src|
  {
    hide BitsValue, Pow2;
    ghost var bits := Normalized(src);
    var bit, sum := 0, 0;
    pos := 8 * i;
    EmptyValue();
    assert bits[8 * i..pos] == [];
    while bit < 8 && pos < |src|
      invariant 0 <= bit <= 8 && pos == 8 * i + bit && pos <= |src|
      invariant sum == BitsValue(bits[8 * i..pos])
      decreases 8 - bit
    {
      OneMoreBit(bits, 8 * i, pos);
      if src[pos] != 0 { sum := sum + Pow2(bit); }
      pos := pos + 1;
      bit := bit + 1;
    }
    assert bits[8 * i..pos] == Group(bits, i);
    ByteBound(Group(bits, i));
    acc := sum;
  }

  /** The encoding loop of modbus_write_bits. */
  method EncodeBits(src: seq<byte>, req: seq<byte>) returns (out: seq<byte>)
    ensures out == req + Packed(Normalized(src))
  {
    hide Packed, ByteValue;
    var byteCount := ByteCount(|src|);
    ghost var bits := Normalized(src);
    var i := 0;
    out := req;
    while i < byteCount
      invariant 0 <= i <= byteCount
      invariant out == req + Packed(bits)[..i]
    {
      var acc, pos := EncodeByte(src, i);
      PackedPrefix(bits, i);
      out := out + [acc];
      i := i + 1;
    }
    assert Packed(bits)[..i] == Packed(bits);
  }

  // ---------------------------------------------------------------- registers

  function Hi(x: int): byte { x / 0x100 % 0x100 }
  function Lo(x: int): byte { x % 0x100 }

  function At16(bytes: seq<byte>, i: nat): word
    requires i + 1 < |bytes|
  {
    bytes[i] as int * 0x100 + bytes[i + 1] as int
  }

  function RegisterBytes(regs: seq<word>): (bytes: seq<byte>)
    ensures |bytes| == 2 * |regs|
    ensures forall i | 0 <= i < |regs| :: bytes[2 * i] == Hi(regs[i]) && bytes[2 * i + 1] == Lo(regs[i])
  {
    seq(2 * |regs|, i requires 0 <= i < 2 * |regs| => if i % 2 == 0 then Hi(regs[i / 2]) else Lo(regs[i / 2]))
  }

  function Registers(bytes: seq<byte>, nb: nat): (regs: seq<word>)
    requires 2 * nb <= |bytes|
    ensures |regs| == nb
    ensures forall i | 0 <= i < nb :: regs[i] == At16(bytes, 2 * i)
  {
    seq(nb, i requires 0 <= i < nb => At16(bytes, 2 * i))
  }

  lemma HiLo(x: word)
    ensures Hi(x) as int * 0x100 + Lo(x) as int == x
  {}

  lemma RegisterOfBytes(regs: seq<word>, i: nat)
    requires i < |regs|
    ensures At16(RegisterBytes(regs), 2 * i) == regs[i]
  {
    hide Hi, Lo;
    HiLo(regs[i]);
  }

  lemma RegistersOfBytes(regs: seq<word>)
    ensures Registers(RegisterBytes(regs), |regs|) == regs
  {
    hide At16, RegisterBytes;
    forall i | 0 <= i < |regs| ensures Registers(RegisterBytes(regs), |regs|)[i] == regs[i] {
      RegisterOfBytes(regs, i);
    }
  }

  lemma RegisterPrefix(regs: seq<word>, k: nat)
    requires k < |regs|
    ensures RegisterBytes(regs)[..2 * (k + 1)] == RegisterBytes(regs)[..2 * k] + [Hi(regs[k]), Lo(regs[k])]
  {
    hide Hi, Lo, RegisterBytes;
    var all := RegisterBytes(regs);
    assert all[2 * k] == Hi(regs[k]) && all[2 * k + 1] == Lo(regs[k]);
  }

  /** The loop that puts registers into a message, high byte first. */
  method EncodeRegisters(regs: seq<word>, msg: seq<byte>) returns (out: seq<byte>)
    ensures out == msg + RegisterBytes(regs)
  {
    hide *;
    out := msg;
    var i := 0;
    while i < |regs|
      invariant 0 <= i <= |regs|
      invariant out == msg + RegisterBytes(regs)[..2 * i]
    {
      RegisterPrefix(regs, i);
      out := out + [Hi(regs[i]), Lo(regs[i])];
      i := i + 1;
    }
    assert RegisterBytes(regs)[..2 * i] == RegisterBytes(regs);
  }

  /** The writing loop of modbus_reply. */
  method DecodeRegisters(bytes: seq<byte>, tab: array<word>, address: nat, nb: nat)
    requires address + nb <= tab.Length && 2 * nb <= |bytes|
    modifies tab
    ensures tab[..] == old(tab[..address]) + Registers(bytes, nb) + old(tab[address + nb..])
  {
    var i, j := address, 0;
    while i < address + nb
      invariant address <= i <= address + nb && j == 2 * (i - address)
      invariant tab[..address] == old(tab[..address])
      invariant forall k | address <= k < i :: tab[k] == Registers(bytes, nb)[k - address]
      invariant forall k | i <= k < tab.Length :: tab[k] == old(tab[k])
    {
      tab[i] := bytes[j] as int * 0x100 + bytes[j + 1] as int;
      i, j := i + 1, j + 2;
    }
    assert tab[address..address + nb] == Registers(bytes, nb);
    assert tab[address + nb..] == old(tab[address + nb..]);
    assert tab[..] == tab[..address] + tab[address..address + nb] + tab[address + nb..];
  }
}
