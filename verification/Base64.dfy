/** The built-in Base64 coder of paho: it fills buffers of exactly the computed lengths and
    decoding undoes encoding. */
module Base64 {

  type octet = bv8

  const NV: octet := 64   // not a character of the alphabet
  const PAD: octet := 61  // '='

  // ---------------------------------------------------------------- the tables

  /** BASE64_ENCODE_TABLE: A-Z, a-z, 0-9, '+', '/' and, at 64, '='. */
  function Symbol(v: octet): octet {
    if v < 26 then v + 65
    else if v < 52 then v + 71
    else if v < 62 then v - 4
    else if v == 62 then 43
    else if v == 63 then 47
    else PAD
  }

  /** BASE64_DECODE_TABLE */
  function Index(c: octet): octet {
    if c == 43 then 62
    else if c == 47 then 63
    else if 48 <= c <= 57 then c + 4
    else if 65 <= c <= 90 then c - 65
    else if 97 <= c <= 122 then c - 71
    else NV
  }

  /** The decoding table inverts the encoding table. */
  lemma IndexOfSymbol(v: octet)
    ensures v < 64 ==> Index(Symbol(v)) == v && Symbol(v) != PAD && Symbol(v) < 128
    ensures Index(PAD) == NV && Symbol(64) == PAD && PAD < 128
  {}

  /** And it knows no other character. */
  lemma IndexIsOfSymbol(c: octet)
    ensures Index(c) < 64 ==> Symbol(Index(c)) == c
    ensures Index(c) <= 64
  {}

  // ---------------------------------------------------------------- bits of a group

  function First(a: octet): octet { (a & !0x3) >> 2 }
  function Second(a: octet, b: octet): octet { ((a & 0x3) << 4) | ((b & !0xF) >> 4) }
  function Third(b: octet, c: octet): octet { ((b & 0xF) << 2) | ((c & !0x3F) >> 6) }
  function Fourth(c: octet): octet { c & 0x3F }

  function LowNibble(c1: octet): octet { (c1 & 0xF) << 4 }
  function LowBits(c2: octet): octet { (c2 & 0x3) << 6 }

  function Back1(c0: octet, c1: octet): octet { (c0 << 2) | ((c1 & !0xF) >> 4) }
  function Back2(c1: octet, c2: octet): octet { ((c1 & 0xF) << 4) | ((c2 & !0x3) >> 2) }
  function Back3(c2: octet, c3: octet): octet { ((c2 & 0x3) << 6) | c3 }

  lemma FirstBack(a: octet, b: octet)
    ensures First(a) < 64 && Second(a, b) < 64
    ensures Back1(First(a), Second(a, b)) == a
  {}

  lemma SecondBack(a: octet, b: octet, c: octet)
    ensures Third(b, c) < 64
    ensures Back2(Second(a, b), Third(b, c)) == b
  {}

  lemma ThirdBack(b: octet, c: octet)
    ensures Fourth(c) < 64
    ensures Back3(Third(b, c), Fourth(c)) == c
  {}

  // ---------------------------------------------------------------- whole strings

  /** Three octets become four characters; one or two at the end are padded with '='. */
  function Encoded(s: seq<octet>): (t: seq<octet>)
    ensures |t| == 4 * ((|s| + 2) / 3)
  {
    if s == [] then []
    else if |s| == 1 then [Symbol(First(s[0])), Symbol(Second(s[0], 0)), PAD, PAD]
    else if |s| == 2 then [Symbol(First(s[0])), Symbol(Second(s[0], s[1])), Symbol(Third(s[1], 0)), PAD]
    else
      [Symbol(First(s[0])), Symbol(Second(s[0], s[1])), Symbol(Third(s[1], s[2])), Symbol(Fourth(s[2]))] +
      Encoded(s[3..])
  }

  /** All that can be decoded; it ends at the first '=' or other foreign character in the third
      or fourth place of a group. */
  function Decoded(t: seq<octet>): seq<octet> {
    if |t| <= 3 then []
    else
      var part := Part(Index(t[0]), Index(t[1]), Index(t[2]), Index(t[3]));
      if |part| < 3 then part else part + Decoded(t[4..])
  }

  /** The one to three octets of a group. */
  function Part(c0: octet, c1: octet, c2: octet, c3: octet): (p: seq<octet>)
    ensures 1 <= |p| <= 3
  {
    if c2 >= NV then [Back1(c0, c1)]
    else if c3 >= NV then [Back1(c0, c1), Back2(c1, c2)]
    else [Back1(c0, c1), Back2(c1, c2), Back3(c2, c3)]
  }

  /** Decoding undoes encoding. */
  lemma {:induction false} RoundTrip(s: seq<octet>)
    ensures Decoded(Encoded(s)) == s
  {
    hide Symbol, Index, First, Second, Third, Fourth, Back1, Back2, Back3;
    if s != [] {
      var a := s[0];
      var b := if |s| > 1 then s[1] else 0;
      var c := if |s| > 2 then s[2] else 0;
      FirstBack(a, b);
      SecondBack(a, b, c);
      ThirdBack(b, c);
      IndexOfSymbol(First(a));
      IndexOfSymbol(Second(a, b));
      IndexOfSymbol(Third(b, c));
      IndexOfSymbol(Fourth(c));
      if |s| > 3 {
        RoundTrip(s[3..]);
        assert Encoded(s)[4..] == Encoded(s[3..]);
      } else if |s| == 3 {
        assert Encoded(s)[4..] == Encoded([]);
      }
    }
  }

  // ---------------------------------------------------------------- the standard in literal characters

  /** Table 1 of RFC 4648: letters and digits in four runs, and the padding. */
  lemma AlphabetIs(v: octet)
    ensures Symbol(0) as int == 'A' as int && Symbol(25) as int == 'Z' as int
    ensures Symbol(26) as int == 'a' as int && Symbol(51) as int == 'z' as int
    ensures Symbol(52) as int == '0' as int && Symbol(61) as int == '9' as int
    ensures Symbol(62) as int == '+' as int && Symbol(63) as int == '/' as int && PAD as int == '=' as int
    ensures v < 61 && v != 25 && v != 51 ==> Symbol(v + 1) == Symbol(v) + 1
  {}

  /** Three octets and their four indices are the same 24 bits. */
  lemma GroupIs24Bits(a: octet, b: octet, c: octet)
    ensures (First(a) as bv24 << 18) | (Second(a, b) as bv24 << 12) | (Third(b, c) as bv24 << 6) | Fourth(c) as bv24
         == (a as bv24 << 16) | (b as bv24 << 8) | c as bv24
  {}

  /** Section 10 of RFC 4648: "f", "fo" and "foobar" become "Zg==", "Zm8=" and "Zm9vYmFy". */
  lemma Examples()
    ensures Encoded([102]) == [90, 103, 61, 61]
    ensures Encoded([102, 111]) == [90, 109, 56, 61]
    ensures Encoded([102, 111, 111, 98, 97, 114]) == [90, 109, 57, 118, 89, 109, 70, 121]
  {
    var s: seq<octet> := [102, 111, 111, 98, 97, 114];
    assert s[3..] == [98, 97, 114] && s[3..][3..] == [];
    assert Encoded([98, 97, 114]) == [89, 109, 70, 121] + Encoded([]);
  }

  // ---------------------------------------------------------------- lengths

  /** Base64_encodeLength on 32-bit unsigned integers. */
  function EncodeLength(n: nat): nat {
    (4 * n % 0x1_0000_0000 / 3 + 3) / 4 * 4
  }

  /** It is 4 * ceil(n / 3) exactly as long as 4 * n does not wrap. */
  lemma EncodeLengthIsExact(n: nat)
    requires n < 0x1_0000_0000
    ensures EncodeLength(n) == 4 * ((n + 2) / 3) <==> n < 0x4000_0000
  {}

  /** From 2^30 octets on the product wraps: no characters at all are asked for. */
  lemma EncodeLengthWraps()
    ensures EncodeLength(0x4000_0000) == 0 && 4 * ((0x4000_0000 + 2) / 3) > 0
  {}

  /** Base64_decodeLength */
  function DecodeLength(t: seq<octet>): int {
    var pad := (if |t| > 1 && t[|t| - 2] == PAD then 1 else 0) + (if |t| > 0 && t[|t| - 1] == PAD then 1 else 0);
    |t| / 4 * 3 - pad
  }

  /** Only the last group matters for the padding. */
  lemma {:induction false} EndOfEncoding(s: seq<octet>)
    requires s != []
    ensures var t := Encoded(s);
            && |t| >= 4
            && (t[|t| - 2] == PAD <==> |s| % 3 == 1)
            && (t[|t| - 1] == PAD <==> |s| % 3 != 0)
  {
    hide Encoded, Symbol, First, Second, Third, Fourth;
    if |s| > 3 {
      EndOfEncoding(s[3..]);
      EndStep(s);
    } else {
      EndOfGroup(s);
    }
  }

  /** The last two characters are those of the rest. */
  lemma EndStep(s: seq<octet>)
    requires |s| > 3 && |Encoded(s[3..])| >= 4
    ensures var t, r := Encoded(s), Encoded(s[3..]);
            |t| >= 4 && t[|t| - 2] == r[|r| - 2] && t[|t| - 1] == r[|r| - 1]
    ensures |s[3..]| % 3 == |s| % 3
  {
    hide Encoded, Symbol, First, Second, Third, Fourth;
    EncodedStep(s);
    var g := [Symbol(First(s[0])), Symbol(Second(s[0], s[1])), Symbol(Third(s[1], s[2])), Symbol(Fourth(s[2]))];
    LastTwo(g, Encoded(s[3..]), Encoded(s));
    SameRemainder(|s|);
  }

  lemma LastTwo(g: seq<octet>, r: seq<octet>, t: seq<octet>)
    requires t == g + r && |r| >= 2
    ensures |t| == |g| + |r| && t[|t| - 2] == r[|r| - 2] && t[|t| - 1] == r[|r| - 1]
  {}

  lemma SameRemainder(n: nat)
    requires n >= 3
    ensures (n - 3) % 3 == n % 3
  {}

  lemma EndOfGroup(s: seq<octet>)
    requires 1 <= |s| <= 3
    ensures var t := Encoded(s);
            && |t| == 4
            && (t[2] == PAD <==> |s| == 1)
            && (t[3] == PAD <==> |s| < 3)
  {
    hide Encoded, Symbol, First, Second, Third, Fourth;
    EncodedStep(s);
    if |s| > 1 { SymbolOfThird(s[0], s[1], if |s| > 2 then s[2] else 0); }
  }

  lemma SymbolOfThird(a: octet, b: octet, c: octet)
    ensures Symbol(Third(b, c)) != PAD && Symbol(Fourth(c)) != PAD
  {
    hide Symbol, Third, Fourth;
    SecondBack(a, b, c);
    ThirdBack(b, c);
    IndexOfSymbol(Third(b, c));
    IndexOfSymbol(Fourth(c));
  }

  lemma EncodedStep(s: seq<octet>)
    requires s != []
    ensures |s| == 1 ==> Encoded(s) == [Symbol(First(s[0])), Symbol(Second(s[0], 0)), PAD, PAD]
    ensures |s| == 2 ==> Encoded(s) == [Symbol(First(s[0])), Symbol(Second(s[0], s[1])), Symbol(Third(s[1], 0)), PAD]
    ensures |s| >= 3 ==>
      Encoded(s) == [Symbol(First(s[0])), Symbol(Second(s[0], s[1])), Symbol(Third(s[1], s[2])), Symbol(Fourth(s[2]))] +
                    Encoded(s[3..])
    ensures |s| == 3 ==> Encoded(s[3..]) == []
  {
    hide Symbol, First, Second, Third, Fourth;
  }

  /** The computed length of a decoded encoding is the original length. */
  lemma DecodeLengthIsExact(s: seq<octet>)
    ensures DecodeLength(Encoded(s)) == |s|
  {
    hide Encoded, DecodeLength;
    if s == [] { EmptyEncoding(); } else { EndOfEncoding(s); }
    LengthFromEnd(Encoded(s), |s|);
  }

  lemma LengthFromEnd(t: seq<octet>, n: nat)
    requires |t| == 4 * ((n + 2) / 3)
    requires n > 0 ==> (t[|t| - 2] == PAD <==> n % 3 == 1) && (t[|t| - 1] == PAD <==> n % 3 != 0)
    ensures DecodeLength(t) == n
  {
    LengthArithmetic(n);
  }

  lemma LengthArithmetic(n: nat)
    ensures 4 * ((n + 2) / 3) / 4 * 3 == n + (if n % 3 == 1 then 2 else if n % 3 == 2 then 1 else 0)
  {}

  // ---------------------------------------------------------------- the coder

  /** What Base64_encode reports: all or nothing, except that an output of a multiple of four
      characters is filled and counts as a success. */
  function Reported(room: nat, total: nat): nat {
    if room >= total then total else if room % 4 == 0 then room else 0
  }

  /** The first group of characters, and how much of the input it uses. */
  method Group(s: seq<octet>) returns (group: seq<octet>, used: nat)
    requires s != []
    ensures 1 <= used <= |s| && |group| == 4
    ensures Encoded(s) == group + Encoded(s[used..])
  {
    hide Symbol, First, Second, Third, Fourth;
    var c0, c1, c2, c3 := First(s[0]), Second(s[0], 0), 64, 64;
    used := 1;
    if |s| > 1 {
      c1 := Second(s[0], s[1]);
      c2 := Third(s[1], 0);
      used := 2;
      if |s| > 2 {
        c2 := Third(s[1], s[2]);
        c3 := Fourth(s[2]);
        used := 3;
      }
    }
    IndexOfSymbol(64);
    group := [Symbol(c0), Symbol(c1), Symbol(c2), Symbol(c3)];
    if |s| <= 3 { assert s[used..] == [] && Encoded([]) == []; }
  }

  /** Base64_encode */
  method Encode(out: array<octet>, input: seq<octet>) returns (ret: nat)
    modifies out
    ensures ret == Reported(out.Length, |Encoded(input)|) && ret <= out.Length
    ensures ret <= |Encoded(input)| && out[..ret] == Encoded(input)[..ret]
    ensures |Encoded(input)| < out.Length ==> out[ret] == 0
  {
    hide Encoded;
    ghost var all := Encoded(input);
    var s, count := input, 0;
    EmptyEncoding();
    while s != [] && count < out.Length
      invariant count % 4 == 0
      invariant count <= out.Length ==> all == out[..count] + Encoded(s)
      invariant count > out.Length ==> |all| > out.Length && out.Length % 4 != 0
      decreases |s|
    {
      ghost var done := out[..count];
      var group, used := Group(s);
      s := s[used..];
      GroupFits(all, done, group, Encoded(s), out.Length);
      count := count + 4;
      if count <= out.Length { PutGroup(out, count - 4, group); }
    }
    ret := 0;
    if count <= out.Length {
      if s != [] { var _, _ := Group(s); }
      if count < out.Length { out[count] := 0; }
      ret := count;
    }
  }

  method PutGroup(out: array<octet>, at: nat, group: seq<octet>)
    requires at + 4 <= out.Length && |group| == 4
    modifies out
    ensures out[..at + 4] == old(out[..at]) + group
  {
    forall i | 0 <= i < 4 { out[at + i] := group[i]; }
  }

  /** A group that does not fit means that the whole does not, and that there is no exact end. */
  lemma GroupFits(all: seq<octet>, done: seq<octet>, group: seq<octet>, rest: seq<octet>, room: nat)
    requires all == done + (group + rest) && |group| == 4 && |done| % 4 == 0 && |done| < room
    ensures all == (done + group) + rest && (|done| + 4) % 4 == 0
    ensures |done| + 4 > room ==> |all| > room && room % 4 != 0
  {
    if |done| + 4 > room { Between(|done|, room); }
  }

  lemma Between(n: nat, room: nat)
    requires n % 4 == 0 && n < room < n + 4
    ensures room % 4 != 0
  {}

  /** Six octets into four characters: a success is reported, and half of the input is missing. */
  method HalfEncoded(input: seq<octet>) returns (out: array<octet>, ret: nat)
    requires |input| == 6
    ensures fresh(out) && out.Length == ret == 4 && |Encoded(input)| == 8 && out[..] == Encoded(input)[..4]
  {
    hide Encoded;
    out := new octet[4];
    ret := Encode(out, input);
    assert out[..4] == out[..];
  }

  lemma EmptyEncoding()
    ensures Encoded([]) == []
  {}

  /** Base64_decode */
  method Decode(out: array<octet>, input: seq<octet>) returns (ret: nat)
    requires forall i | 0 <= i < |input| :: input[i] < 128
    modifies out
    ensures ret == if out.Length < |Decoded(input)| then out.Length else |Decoded(input)|
    ensures out[..ret] == Decoded(input)[..ret]
    ensures ret < out.Length ==> out[ret] == 0
  {
    hide Decoded, Index, Part;
    ghost var all := Decoded(input);
    var s, count := input, 0;
    DecodedShort([]);
    while |s| > 3 && count < out.Length
      invariant count <= out.Length
      invariant all == out[..count] + Decoded(s)
        || (count == out.Length <= |all| && out[..count] == all[..count])
      decreases |s|
    {
      DecodedStep(s);
      ghost var done, part := out[..count], Part(Index(s[0]), Index(s[1]), Index(s[2]), Index(s[3]));
      ghost var rest := Decoded(s[4..]);
      var next, end := DecodeGroup(out, count, s[..4]);
      s := if end then [] else s[4..];
      ghost var n := next - count;
      count := next;
      assert out[..count] == done + part[..n];
      Advance(all, done, part, if |part| < 3 then [] else rest, n);
    }
    if |s| <= 3 { DecodedShort(s); }
    ret := count;
    if count < out.Length { out[count] := 0; }
  }

  lemma Advance(all: seq<octet>, done: seq<octet>, part: seq<octet>, rest: seq<octet>, n: nat)
    requires n <= |part| && all == done + (part + rest)
    ensures n == |part| ==> all == done + part[..n] + rest
    ensures |done| + n <= |all| && all[..|done| + n] == done + part[..n]
  {}

  /** One group of four characters, as far as there is room; `end` when it was the last one. */
  method DecodeGroup(out: array<octet>, at: nat, g: seq<octet>) returns (count: nat, end: bool)
    requires |g| == 4 && at < out.Length
    modifies out
    ensures var part := Part(Index(g[0]), Index(g[1]), Index(g[2]), Index(g[3]));
            && count == (if at + |part| <= out.Length then at + |part| else out.Length)
            && (forall k | 0 <= k < count - at :: out[at + k] == part[k])
            && end == (|part| < 3 && count < out.Length)
    ensures forall k | 0 <= k < at :: out[k] == old(out[k])
  {
    hide Index, Back1, Back2, Back3, LowNibble, LowBits;
    var c0, c1, c2, c3 := Index(g[0]), Index(g[1]), Index(g[2]), Index(g[3]);
    end := false;
    out[at] := Back1(c0, c1);
    count := at + 1;
    if count < out.Length {
      out[count] := LowNibble(c1);
      if c2 < NV {
        out[count] := Back2(c1, c2);
        count := count + 1;
        if count < out.Length {
          out[count] := LowBits(c2);
          if c3 < NV {
            out[count] := Back3(c2, c3);
            count := count + 1;
          } else {
            end := true;
          }
        }
      } else {
        end := true;
      }
    }
  }

  lemma DecodedShort(s: seq<octet>)
    ensures |s| <= 3 ==> Decoded(s) == []
  {}

  lemma DecodedStep(s: seq<octet>)
    requires |s| > 3
    ensures var part := Part(Index(s[0]), Index(s[1]), Index(s[2]), Index(s[3]));
            Decoded(s) == part + (if |part| < 3 then [] else Decoded(s[4..]))
  {
    hide Index, Part;
  }

  /** Encoding and decoding through buffers of exactly the computed lengths. */
  method ThereAndBack(s: seq<octet>) returns (t: array<octet>, u: array<octet>)
    requires |s| < 0x4000_0000
    ensures t[..] == Encoded(s) && u[..] == s
  {
    hide Encoded, Decoded, DecodeLength;
    EncodeLengthIsExact(|s|);
    t := new octet[EncodeLength(|s|)];
    var n := Encode(t, s);
    assert t[..n] == t[..];
    DecodeLengthIsExact(s);
    RoundTrip(s);
    Ascii(s);
    assert t[..] == Encoded(s);
    u := new octet[DecodeLength(t[..])];
    var m := Decode(u, t[..]);
    assert u[..m] == u[..];
  }

  lemma {:induction false} Ascii(s: seq<octet>)
    ensures forall i | 0 <= i < |Encoded(s)| :: Encoded(s)[i] < 128
  {
    hide Symbol, First, Second, Third, Fourth;
    if s != [] {
      var a := s[0];
      var b := if |s| > 1 then s[1] else 0;
      var c := if |s| > 2 then s[2] else 0;
      FirstBack(a, b);
      SecondBack(a, b, c);
      ThirdBack(b, c);
      IndexOfSymbol(First(a));
      IndexOfSymbol(Second(a, b));
      IndexOfSymbol(Third(b, c));
      IndexOfSymbol(Fourth(c));
      if |s| > 3 { Ascii(s[3..]); }
    }
  }
}
