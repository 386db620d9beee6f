/** The machine integers shared by the models. */
module Bytes {
  type byte = x: int | 0 <= x < 0x100
  type word = x: int | 0 <= x < 0x1_0000

  // ---------------------------------------------------------------- bytes as bit vectors

  function Nibble(d: int): (v: bv8)
    requires 0 <= d < 16
    ensures v < 16
  {
    if d < 8 then
      if d < 4 then (if d == 0 then 0 else if d == 1 then 1 else if d == 2 then 2 else 3)
      else (if d == 4 then 4 else if d == 5 then 5 else if d == 6 then 6 else 7)
    else if d < 12 then (if d == 8 then 8 else if d == 9 then 9 else if d == 10 then 10 else 11)
    else (if d == 12 then 12 else if d == 13 then 13 else if d == 14 then 14 else 15)
  }

  function NibbleValue(v: bv8): (d: int)
    ensures 0 <= d < 16
  {
    if v < 8 then
      if v < 4 then (if v == 0 then 0 else if v == 1 then 1 else if v == 2 then 2 else 3)
      else (if v == 4 then 4 else if v == 5 then 5 else if v == 6 then 6 else 7)
    else if v < 12 then (if v == 8 then 8 else if v == 9 then 9 else if v == 10 then 10 else 11)
    else (if v == 12 then 12 else if v == 13 then 13 else if v == 14 then 14 else 15)
  }

  function Both(high: bv8, low: bv8): bv8 { (high << 4) | low }
  function High(v: bv8): bv8 { v >> 4 }
  function Low(v: bv8): bv8 { v & 0xF }

  /** The bits of a byte. */
  function ToBits(x: byte): bv8 { Both(Nibble(x / 16), Nibble(x % 16)) }

  /** The number that eight bits stand for. */
  function FromBits(v: bv8): byte { 16 * NibbleValue(High(v)) + NibbleValue(Low(v)) }

  lemma NibbleBack(d: int)
    requires 0 <= d < 16
    ensures NibbleValue(Nibble(d)) == d
  {}

  lemma ValueBack(v: bv8)
    requires v < 16
    ensures Nibble(NibbleValue(v)) == v
  {}

  lemma HighAndLow(h: bv8, l: bv8)
    requires h < 16 && l < 16
    ensures High(Both(h, l)) == h && Low(Both(h, l)) == l
  {}

  lemma BothParts(v: bv8)
    ensures High(v) < 16 && Low(v) < 16 && Both(High(v), Low(v)) == v
  {}

  lemma FromToBits(x: byte)
    ensures FromBits(ToBits(x)) == x
  {
    hide Nibble, NibbleValue, Both, High, Low;
    NibbleBack(x / 16);
    NibbleBack(x % 16);
    HighAndLow(Nibble(x / 16), Nibble(x % 16));
  }

  lemma SixteenParts(h: int, l: int)
    requires 0 <= h < 16 && 0 <= l < 16
    ensures (16 * h + l) / 16 == h && (16 * h + l) % 16 == l
  {}

  lemma ToFromBits(v: bv8)
    ensures ToBits(FromBits(v)) == v
  {
    hide Nibble, NibbleValue, Both, High, Low;
    BothParts(v);
    ValueBack(High(v));
    ValueBack(Low(v));
    SixteenParts(NibbleValue(High(v)), NibbleValue(Low(v)));
  }
}
