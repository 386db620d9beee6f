/** The growing, size-limited text buffer of zlog, with a marker where text was cut off. */
module ZlogBuf {

  // ---------------------------------------------------------------- texts

  function Repeat(c: char, n: nat): (s: string)
    ensures |s| == n && forall i | 0 <= i < n :: s[i] == c
  {
    seq(n, _ => c)
  }

  /** "0123456789abcdef"[d] */
  function Digit(d: nat): char
    requires d < 16
  {
    if d < 10 then '0' + d as char else 'a' + (d - 10) as char
  }

  lemma DigitIs(d: nat)
    requires d < 16
    ensures Digit(d) == "0123456789abcdef"[d]
  {}

  function DigitValue(c: char): nat {
    if '0' <= c <= '9' then c as int - '0' as int
    else if 'a' <= c <= 'f' then c as int - 'a' as int + 10
    else 0
  }

  /** The digits of n, most significant first. */
  function Numeral(n: nat, radix: nat): string
    requires 2 <= radix <= 16
  {
    if n < radix then [Digit(n)] else Numeral(n / radix, radix) + [Digit(n % radix)]
  }

  /** The number that a row of digits stands for. */
  function NumeralValue(s: string, radix: nat): nat {
    if s == [] then 0 else NumeralValue(s[..|s| - 1], radix) * radix + DigitValue(s[|s| - 1])
  }

  function Power(radix: nat, k: nat): nat {
    if k == 0 then 1 else radix * Power(radix, k - 1)
  }

  lemma DivMod(n: nat, radix: nat)
    requires 2 <= radix <= 16
    ensures n == n / radix * radix + n % radix && n % radix < radix
    ensures n >= radix ==> 0 < n / radix < n
    ensures n < radix ==> n / radix == 0 && n % radix == n
  {
    match radix {
      case 2 => case 3 => case 4 => case 5 => case 6 => case 7 => case 8 => case 9 => case 10 =>
      case 11 => case 12 => case 13 => case 14 => case 15 => case 16 =>
    }
  }

  lemma DigitReadsBack(s: string, d: nat, radix: nat)
    requires d < 16
    ensures NumeralValue(s + [Digit(d)], radix) == NumeralValue(s, radix) * radix + d
  {
    assert (s + [Digit(d)])[..|s|] == s;
  }

  /** A numeral reads back as its number, is not empty and has no superfluous leading zero. */
  lemma {:induction false} NumeralReadsBack(n: nat, radix: nat)
    requires 2 <= radix <= 16
    ensures NumeralValue(Numeral(n, radix), radix) == n
    ensures |Numeral(n, radix)| >= 1 && (Numeral(n, radix)[0] == '0' ==> n == 0)
  {
    hide NumeralValue;
    if n < radix {
      NumeralOfOne(n, radix);
    } else {
      DivMod(n, radix);
      NumeralReadsBack(n / radix, radix);
      DigitReadsBack(Numeral(n / radix, radix), n % radix, radix);
    }
  }

  lemma NumeralOfOne(d: nat, radix: nat)
    requires d < 16
    ensures NumeralValue([Digit(d)], radix) == d
  {
    assert [Digit(d)][..0] == [];
  }

  lemma QuotientBound(n: nat, radix: nat, p: nat)
    requires 2 <= radix <= 16 && n < radix * p
    ensures n / radix < p
  {
    DivMod(n, radix);
    if n / radix >= p { Monotone(p, n / radix, radix); }
  }

  lemma Monotone(a: nat, b: nat, c: nat)
    requires a <= b
    ensures a * c <= b * c
  {}

  lemma PowerStep(radix: nat, k: nat)
    requires k > 0
    ensures Power(radix, k) == radix * Power(radix, k - 1)
    ensures k == 1 ==> Power(radix, k) == radix
  {
    assert Power(radix, 0) == 1;
  }

  lemma NumeralParts(m: nat, radix: nat)
    requires 2 <= radix <= 16
    ensures 0 <= m / radix && 0 <= m % radix < 16
    ensures Numeral(m, radix) == (if m / radix == 0 then [] else Numeral(m / radix, radix)) + [Digit(m % radix)]
    ensures m > 0 ==> m / radix < m
    ensures |Numeral(m, radix)| >= 1
  {
    hide Digit;
    DivMod(m, radix);
    if m < radix { assert Numeral(m, radix) == [Digit(m)]; } else { NumeralUnfold(m, radix); }
  }

  lemma NumeralUnfold(m: nat, radix: nat)
    requires 2 <= radix <= 16 && m >= radix
    ensures Numeral(m, radix) == Numeral(m / radix, radix) + [Digit(m % radix)]
  {}

  lemma NumeralStep(n: nat, radix: nat)
    requires 2 <= radix <= 16
    ensures |Numeral(n, radix)| == if n < radix then 1 else |Numeral(n / radix, radix)| + 1
  {
    DivMod(n, radix);
  }

  /** A number below radix^k has at most k digits. */
  lemma {:induction false} NumeralLength(n: nat, radix: nat, k: nat)
    requires 2 <= radix <= 16 && k > 0 && n < Power(radix, k)
    ensures |Numeral(n, radix)| <= k
    decreases k
  {
    hide Power, Numeral;
    PowerStep(radix, k);
    NumeralStep(n, radix);
    if n >= radix {
      QuotientBound(n, radix, Power(radix, k - 1));
      NumeralLength(n / radix, radix, k - 1);
    }
  }

  /** Zeros up to the width, then the digits. */
  function Padded(digits: string, width: nat): string {
    if width > |digits| then Repeat('0', width - |digits|) + digits else digits
  }

  /** What adjust_append is asked to write: at most outWidth characters of str, filled up to inWidth. */
  function Adjusted(str: string, leftAdjust: bool, zeroPad: bool, inWidth: nat, outWidth: nat): string {
    var source := if outWidth == 0 || |str| < outWidth then str else str[..outWidth];
    if inWidth == 0 || |source| >= inWidth then source
    else if leftAdjust then source + Repeat(' ', inWidth - |source|)
    else Repeat(if zeroPad then '0' else ' ', inWidth - |source|) + source
  }

  /** The width, and what stands at each place. */
  lemma PaddedIs(digits: string, width: nat)
    ensures var w := if width > |digits| then width else |digits|;
            && |Padded(digits, width)| == w && Padded(digits, width)[w - |digits|..] == digits
            && forall i | 0 <= i < w - |digits| :: Padded(digits, width)[i] == '0'
  {}

  lemma AdjustedIs(str: string, leftAdjust: bool, zeroPad: bool, inWidth: nat, outWidth: nat)
    ensures var n := if outWidth > 0 && outWidth < |str| then outWidth else |str|;
            var w := if inWidth > n then inWidth else n;
            var text := Adjusted(str, leftAdjust, zeroPad, inWidth, outWidth);
            && |text| == w
            && (leftAdjust ==> text[..n] == str[..n] && forall i | n <= i < w :: text[i] == ' ')
            && (!leftAdjust ==> text[w - n..] == str[..n]
                                && forall i | 0 <= i < w - n :: text[i] == if zeroPad then '0' else ' ')
  {
    assert str[..|str|] == str;
  }

  // ---------------------------------------------------------------- what the buffer shows

  /** The end of a cut text is overwritten by the marker, or by the part of it that fits. */
  function Marked(s: string, marker: string): (r: string)
    ensures |r| == |s|
  {
    if |marker| <= |s| then s[..|s| - |marker|] + marker else marker[..|s|]
  }

  /** The whole text if it fits in max - 1 characters, else the first max - 1 with the marker. */
  function Shown(text: string, max: nat, marker: string): string {
    if max == 0 || |text| <= max - 1 then text else Marked(text[..max - 1], marker)
  }

  /** A cut text fills the room to the last character, and the marker is at its end; the text stands in
      front of it. A marker that has no room is cut itself. */
  lemma ShownWhenCut(text: string, max: nat, marker: string)
    requires max > 0 && |text| > max - 1
    ensures Cut(Shown(text, max, marker), text, max - 1, marker)
  {}

  /** `s` is the text cut to n characters with the marker at the end. */
  predicate Cut(s: string, text: string, n: nat, marker: string)
    requires n < |text|
  {
    && |s| == n
    && if |marker| <= n then s[n - |marker|..] == marker && s[..n - |marker|] == text[..n - |marker|]
       else s == marker[..n]
  }

  lemma MarkedTwice(s: string, marker: string)
    ensures Marked(Marked(s, marker), marker) == Marked(s, marker)
  {
    if |marker| <= |s| {
      assert Marked(s, marker)[..|s| - |marker|] == s[..|s| - |marker|];
    }
  }

  /** Once the text has been cut, more of it shows nothing new. */
  lemma ShownIsStable(text: string, more: string, max: nat, marker: string)
    requires max > 0 && |text| > max - 1
    ensures Shown(text + more, max, marker) == Shown(text, max, marker)
  {
    assert (text + more)[..max - 1] == text[..max - 1];
  }

  /** What is shown never needs more than max - 1 characters and starts as the text does. */
  lemma ShownIsPrefix(text: string, max: nat, marker: string)
    ensures max > 0 ==> |Shown(text, max, marker)| <= max - 1
    ensures var s := Shown(text, max, marker);
            forall i | 0 <= i < |s| - |marker| :: i < |text| && s[i] == text[i]
  {}

  /** What a write leaves when the text no longer fits. */
  lemma ShownCut(ideal: string, text: string, max: nat, marker: string)
    requires max > 0 && |ideal| + |text| > max - 1
    ensures |Shown(ideal, max, marker)| <= max - 1
    ensures var n := max - 1 - |Shown(ideal, max, marker)|;
            && n <= |text|
            && Marked(Shown(ideal, max, marker) + text[..n], marker) == Shown(ideal + text, max, marker)
  {
    var shown := Shown(ideal, max, marker);
    if |ideal| <= max - 1 {
      assert (ideal + text)[..max - 1] == ideal + text[..max - 1 - |ideal|];
    } else {
      ShownIsStable(ideal, text, max, marker);
      MarkedTwice(ideal[..max - 1], marker);
      assert shown + text[..0] == shown;
    }
  }

  /** What a write leaves when there is room for the text. */
  lemma ShownFits(ideal: string, text: string, max: nat, marker: string)
    requires max > 0 ==> |Shown(ideal, max, marker)| + |text| <= max - 1
    ensures Shown(ideal, max, marker) + text == Shown(ideal + text, max, marker)
  {
    if max > 0 && |ideal| > max - 1 {
      assert text == [] && ideal + text == ideal;
      assert Shown(ideal, max, marker) + text == Shown(ideal, max, marker);
    }
  }

  /** Whether a write has to cut: decided by the whole text, not by what is shown of it. */
  lemma CutCondition(ideal: string, text: string, max: nat, marker: string)
    requires max > 0
    ensures |Shown(ideal, max, marker)| + |text| > max - 1 <==> text != [] && |ideal + text| > max - 1
  {}

  // ---------------------------------------------------------------- the buffer

  class Buf {
    var data: array<char>   // start and size_real
    var tail: nat
    const sizeMax: nat      // 0: no limit
    const marker: string    // truncate_str
    ghost var ideal: string // everything written since the last restart

    ghost predicate Valid()
      reads this, data
    {
      && 0 <= tail < data.Length
      && (sizeMax > 0 ==> data.Length <= sizeMax)
      && data[..tail] == Shown(ideal, sizeMax, marker)
    }

    /** What zlog_buf_str and zlog_buf_len give. */
    ghost function Contents(): string
      requires Valid()
      reads this, data
    {
      data[..tail]
    }

    /** zlog_buf_new, for sizes that it accepts. */
    constructor (sizeMin: nat, sizeMax: nat, marker: string)
      requires sizeMin > 0 && (sizeMax == 0 || sizeMin <= sizeMax)
      ensures Valid() && fresh(data) && ideal == [] && this.sizeMax == sizeMax && this.marker == marker
    {
      this.sizeMax, this.marker := sizeMax, marker;
      data := new char[sizeMin];
      tail, ideal := 0, [];
    }

    /** zlog_buf_restart */
    method Restart()
      requires Valid()
      modifies this
      ensures Valid() && ideal == [] && data == old(data)
    {
      tail, ideal := 0, [];
    }

    /** memcpy to start + at */
    method Copy(at: nat, s: string)
      requires at + |s| <= data.Length
      modifies data
      ensures data[..] == old(data[..at]) + s + old(data[at + |s|..])
    {
      forall i | 0 <= i < |s| { data[at + i] := s[i]; }
    }

    /** memset at start + at */
    method Fill(at: nat, c: char, n: nat)
      requires at + n <= data.Length
      modifies data
      ensures data[..] == old(data[..at]) + Repeat(c, n) + old(data[at + n..])
    {
      forall i | 0 <= i < n { data[at + i] := c; }
    }

    /** zlog_buf_truncate */
    method Truncate()
      requires tail <= data.Length
      modifies data
      ensures data[..tail] == Marked(old(data[..tail]), marker)
      ensures |marker| <= tail ==> data[tail - |marker|..tail] == marker
                                   && data[..tail - |marker|] == old(data[..tail - |marker|])
      ensures |marker| > tail ==> data[..tail] == marker[..tail]
      ensures data[tail..] == old(data[tail..])
    {
      if marker == [] { return; }
      var p := if tail < |marker| then 0 else tail - |marker|;
      ghost var was := data[..];
      Copy(p, marker[..tail - p]);
      Overwritten(was, data[..], tail, marker);
      assert data[..tail] == data[..][..tail] && data[tail..] == data[..][tail..];
      assert data[p..tail] == data[..][p..tail] && data[..p] == data[..][..p];
    }

    lemma Overwritten(was: string, now: string, tail: nat, marker: string)
      requires tail <= |was|
      requires var p := if tail < |marker| then 0 else tail - |marker|;
               now == was[..p] + marker[..tail - p] + was[tail..]
      ensures now[..tail] == Marked(was[..tail], marker) && now[tail..] == was[tail..]
      ensures |marker| <= tail ==> now[tail - |marker|..tail] == marker
                                   && now[..tail - |marker|] == was[..tail - |marker|]
      ensures |marker| > tail ==> now[..tail] == marker[..tail]
    {
      assert marker[..|marker|] == marker;
    }

    /** zlog_buf_resize: room for `increment` more, unless the limit is in the way. */
    method Resize(increment: nat) returns (limited: bool)
      requires Valid() && increment > 0
      modifies this
      ensures Valid() && ideal == old(ideal) && tail == old(tail) && (data == old(data) || fresh(data))
      ensures limited == (sizeMax != 0 && old(data.Length) + increment > sizeMax)
      ensures limited ==> data.Length == sizeMax
      ensures !limited ==> data.Length == old(data.Length) + if sizeMax == 0 then increment * 3 / 2 else increment
    {
      var size;
      if sizeMax != 0 && data.Length >= sizeMax { return true; }
      if sizeMax == 0 {
        size, limited := data.Length + increment * 3 / 2, false;
      } else if data.Length + increment <= sizeMax {
        size, limited := data.Length + increment, false;
      } else {
        size, limited := sizeMax, true;
      }
      var p := new char[size];
      forall i | 0 <= i < data.Length { p[i] := data[i]; }
      assert p[..tail] == data[..tail];
      data := p;
    }

    /** tail += |text|, with the text already in place. */
    method Advance(n: nat, ghost text: string)
      requires Valid() && n == |text| && tail + |text| < data.Length && data[tail..tail + |text|] == text
      modifies this
      ensures Valid() && ideal == old(ideal) + text && data == old(data)
    {
      hide Shown;
      ShownFits(ideal, text, sizeMax, marker);
      assert data[..tail + |text|] == data[..tail] + data[tail..tail + |text|];
      tail, ideal := tail + n, ideal + text;
    }

    /** The buffer is full: tail = end, and the marker goes over the end of the text. */
    method AdvanceCut(left: nat, ghost text: string)
      requires Valid() && sizeMax > 0 && data.Length == sizeMax && left == sizeMax - 1 - tail
      requires left <= |text| && data[tail..tail + left] == text[..left]
      requires |ideal| + |text| > sizeMax - 1
      modifies this, data
      ensures Valid() && ideal == old(ideal) + text && data == old(data)
    {
      hide Shown, Marked;
      ShownCut(ideal, text, sizeMax, marker);
      assert data[..tail + left] == data[..tail] + data[tail..tail + left];
      tail := tail + left;
      Truncate();
      ideal := ideal + text;
    }

    /** Room for n more characters, or as much as there is; `cut` when it is not enough. */
    method Reserve(n: nat, ghost text: string) returns (cut: bool)
      requires Valid() && |text| == n
      modifies this
      ensures Valid() && ideal == old(ideal) && tail == old(tail) && (data == old(data) || fresh(data))
      ensures cut == (sizeMax != 0 && text != [] && |ideal + text| > sizeMax - 1)
      ensures cut ==> data.Length == sizeMax && sizeMax - 1 - tail <= n
      ensures !cut ==> tail + n < data.Length
    {
      hide Shown;
      cut := false;
      if sizeMax > 0 { CutCondition(ideal, text, sizeMax, marker); }
      if tail + n > data.Length - 1 { cut := Resize(n - (data.Length - 1 - tail)); }
    }

    /** zlog_buf_append */
    method Append(s: string) returns (cut: bool)
      requires Valid()
      modifies this, data
      ensures Valid() && ideal == old(ideal) + s && (data == old(data) || fresh(data))
      ensures cut == (sizeMax != 0 && s != [] && |ideal| > sizeMax - 1)
    {
      hide Shown;
      cut := Reserve(|s|, s);
      if cut {
        var left := data.Length - 1 - tail;
        Copy(tail, s[..left]);
        AdvanceCut(left, s);
      } else {
        Copy(tail, s);
        Advance(|s|, s);
      }
    }

    /** memset and memcpy side by side: the filling on the left, or on the right. */
    method Lay(at: nat, c: char, n: nat, s: string, fillFirst: bool)
      requires at + n + |s| <= data.Length
      modifies data
      ensures data[..at] == old(data[..at])
      ensures data[at..at + n + |s|] == if fillFirst then Repeat(c, n) + s else s + Repeat(c, n)
    {
      hide Repeat;
      if fillFirst { LayFilled(at, c, n, s); } else { LayFilling(at, c, n, s); }
    }

    method LayFilled(at: nat, c: char, n: nat, s: string)
      requires at + n + |s| <= data.Length
      modifies data
      ensures data[..at] == old(data[..at]) && data[at..at + n + |s|] == Repeat(c, n) + s
    {
      hide Repeat;
      Lengths(c, n);
      Fill(at, c, n);
      ghost var d := data[..];
      Copy(at + n, s);
      LeftHalf(d, data[..], at, Repeat(c, n), s);
    }

    method LayFilling(at: nat, c: char, n: nat, s: string)
      requires at + n + |s| <= data.Length
      modifies data
      ensures data[..at] == old(data[..at]) && data[at..at + n + |s|] == s + Repeat(c, n)
    {
      hide Repeat;
      Lengths(c, n);
      Fill(at + |s|, c, n);
      ghost var d := data[..];
      Copy(at, s);
      RightHalf(d, data[..], at, s, Repeat(c, n));
    }

    lemma LeftHalf(d: string, e: string, at: nat, a: string, b: string)
      requires at + |a| + |b| <= |d|
      requires d[at..at + |a|] == a && e == d[..at + |a|] + b + d[at + |a| + |b|..]
      ensures e[..at] == d[..at] && e[at..at + |a| + |b|] == a + b
    {}

    lemma RightHalf(d: string, e: string, at: nat, a: string, b: string)
      requires at + |a| + |b| <= |d|
      requires d[at + |a|..at + |a| + |b|] == b && e == d[..at] + a + d[at + |a|..]
      ensures e[..at] == d[..at] && e[at..at + |a| + |b|] == a + b
    {}

    lemma Lengths(c: char, n: nat)
      ensures |Repeat(c, n)| == n
    {}

    /** The digit loop of printf_dec32, printf_dec64 and printf_hex: from the last digit down. */
    method Digits(n: nat, radix: nat, room: nat) returns (tmp: array<char>, p: nat)
      requires 2 <= radix <= 16 && |Numeral(n, radix)| <= room
      ensures fresh(tmp) && p < tmp.Length == room && tmp[p..] == Numeral(n, radix)
    {
      hide Digit, Numeral;
      NumeralReadsBack(n, radix);
      tmp := new char[room];
      p := room - 1;
      var m := n;
      NumeralParts(m, radix);
      tmp[p] := Digit(m % radix);
      m := m / radix;
      assert tmp[p..] == [Digit(n % radix)];
      while m != 0
        invariant 0 <= p < room && 0 <= m
        invariant Numeral(n, radix) == (if m == 0 then [] else Numeral(m, radix)) + tmp[p..]
        decreases m
      {
        NumeralParts(m, radix);
        assert p > 0;
        p := AddDigit(tmp, p, m % radix);
        m := m / radix;
      }
    }

    method AddDigit(tmp: array<char>, p: nat, d: nat) returns (q: nat)
      requires 0 < p < tmp.Length && d < 16
      modifies tmp
      ensures q == p - 1 && tmp[q..] == [Digit(d)] + old(tmp[p..])
    {
      q := p - 1;
      tmp[q] := Digit(d);
      assert tmp[q..] == [tmp[q]] + tmp[p..];
    }

    /** The end of the three number printers: zeros up to the width, then the digits. */
    method PrintDigits(digits: string, width: nat) returns (cut: bool)
      requires Valid() && digits != []
      modifies this, data
      ensures Valid() && ideal == old(ideal) + Padded(digits, width) && (data == old(data) || fresh(data))
      ensures cut == (sizeMax != 0 && |ideal| > sizeMax - 1)
    {
      hide Shown, Repeat, Marked;
      var zeros := if width > |digits| then width - |digits| else 0;
      var out := if width > |digits| then width else |digits|;
      ghost var text := Padded(digits, width);
      PaddedParts(digits, width);
      hide Padded;
      cut := Reserve(out, text);
      if cut {
        LayCut(digits, zeros, '0', false, text);
      } else {
        Lay(tail, '0', zeros, digits, true);
        Advance(out, text);
      }
    }

    lemma PaddedParts(digits: string, width: nat)
      ensures var zeros := if width > |digits| then width - |digits| else 0;
              Padded(digits, width) == Repeat('0', zeros) + digits && |Padded(digits, width)| == zeros + |digits|
    {
      assert Repeat('0', 0) + digits == digits;
    }

    /** A prefix of padding and text. */
    lemma FilledPrefix(c: char, n: nat, s: string, left: nat)
      requires left <= n + |s|
      ensures |Repeat(c, n)| == n
      ensures (Repeat(c, n) + s)[..left] ==
              if left <= n then Repeat(c, left) + s[..0] else Repeat(c, n) + s[..left - n]
    {}

    /** zlog_buf_printf_dec32 */
    method PrintDec32(n: nat, width: nat) returns (cut: bool)
      requires Valid() && n < 0x1_0000_0000
      modifies this, data
      ensures Valid() && ideal == old(ideal) + Padded(Numeral(n, 10), width) && (data == old(data) || fresh(data))
      ensures cut == (sizeMax != 0 && |ideal| > sizeMax - 1)
    {
      hide Padded, Shown;
      assert Power(10, 11) == 100_000_000_000;
      NumeralLength(n, 10, 11);
      var tmp, p := Digits(n, 10, 11);
      cut := PrintDigits(tmp[p..], width);
    }

    /** zlog_buf_printf_dec64 */
    method PrintDec64(n: nat, width: nat) returns (cut: bool)
      requires Valid() && n < 0x1_0000_0000_0000_0000
      modifies this, data
      ensures Valid() && ideal == old(ideal) + Padded(Numeral(n, 10), width) && (data == old(data) || fresh(data))
      ensures cut == (sizeMax != 0 && |ideal| > sizeMax - 1)
    {
      hide Padded, Shown;
      assert Power(10, 10) == 10_000_000_000;
      assert Power(10, 15) == 1_000_000_000_000_000;
      assert Power(10, 20) == 100_000_000_000_000_000_000;
      NumeralLength(n, 10, 20);
      var tmp, p := Digits(n, 10, 20);
      cut := PrintDigits(tmp[p..], width);
    }

    /** zlog_buf_printf_hex */
    method PrintHex(n: nat, width: nat) returns (cut: bool)
      requires Valid() && n < 0x1_0000_0000
      modifies this, data
      ensures Valid() && ideal == old(ideal) + Padded(Numeral(n, 16), width) && (data == old(data) || fresh(data))
      ensures cut == (sizeMax != 0 && |ideal| > sizeMax - 1)
    {
      hide Padded, Shown;
      assert Power(16, 6) == 0x100_0000;
      assert Power(16, 11) == 0x1000_0000_0000;
      NumeralLength(n, 16, 11);
      var tmp, p := Digits(n, 16, 11);
      cut := PrintDigits(tmp[p..], width);
    }

    /** zlog_buf_adjust_append */
    method AdjustAppend(str: string, leftAdjust: bool, zeroPad: bool, inWidth: nat, outWidth: nat) returns (cut: bool)
      requires Valid()
      modifies this, data
      ensures Valid() && ideal == old(ideal) + Adjusted(str, leftAdjust, zeroPad, inWidth, outWidth)
      ensures data == old(data) || fresh(data)
      ensures cut == (sizeMax != 0 && Adjusted(str, leftAdjust, zeroPad, inWidth, outWidth) != []
              && |ideal| > sizeMax - 1)
    {
      hide Shown, Repeat, Marked;
      var source := if outWidth == 0 || |str| < outWidth then |str| else outWidth;
      var append, space;
      if inWidth == 0 || source >= inWidth {
        append, space := source, 0;
      } else {
        append, space := inWidth, inWidth - source;
      }
      var pad := if !leftAdjust && zeroPad then '0' else ' ';
      AdjustedParts(str, leftAdjust, zeroPad, inWidth, outWidth);
      ghost var text := Adjusted(str, leftAdjust, zeroPad, inWidth, outWidth);
      hide Adjusted;
      cut := Reserve(append, text);
      if cut {
        LayCut(str[..source], space, pad, leftAdjust, text);
      } else {
        Lay(tail, pad, space, str[..source], !leftAdjust);
        Advance(append, text);
      }
    }

    lemma AdjustedParts(str: string, leftAdjust: bool, zeroPad: bool, inWidth: nat, outWidth: nat)
      ensures var source := if outWidth == 0 || |str| < outWidth then |str| else outWidth;
              var space := if inWidth == 0 || source >= inWidth then 0 else inWidth - source;
              var pad := if !leftAdjust && zeroPad then '0' else ' ';
              var text := Adjusted(str, leftAdjust, zeroPad, inWidth, outWidth);
              && |text| == source + space
              && text == if leftAdjust then str[..source] + Repeat(pad, space) else Repeat(pad, space) + str[..source]
    {
      assert str[..|str|] == str;
    }

    /** When the buffer is full: the front of the padded text, and the marker. */
    method LayCut(s: string, n: nat, pad: char, leftAdjust: bool, ghost text: string)
      requires Valid() && sizeMax > 0 && data.Length == sizeMax
      requires text == if leftAdjust then s + Repeat(pad, n) else Repeat(pad, n) + s
      requires sizeMax - 1 - tail <= |text| == n + |s| && |ideal| + |text| > sizeMax - 1
      modifies this, data
      ensures Valid() && ideal == old(ideal) + text && data == old(data)
    {
      hide Shown, Repeat, Marked;
      var append, space, source := data.Length - 1 - tail, n, |s|;
      if leftAdjust {
        if source < append { space := append - source; } else { source, space := append, 0; }
      } else {
        if space < append { source := append - space; } else { space, source := append, 0; }
      }
      CutParts(s, n, pad, leftAdjust, append, source, space);
      Lay(tail, pad, space, s[..source], !leftAdjust);
      AdvanceCut(append, text);
    }

    lemma CutParts(s: string, n: nat, pad: char, leftAdjust: bool, append: nat, source: nat, space: nat)
      requires append <= n + |s|
      requires if leftAdjust then source == (if |s| < append then |s| else append) && space == append - source
               else space == (if n < append then n else append) && source == append - space
      ensures |Repeat(pad, space)| == space && source <= |s|
      ensures if leftAdjust then s[..source] + Repeat(pad, space) == (s + Repeat(pad, n))[..append]
              else Repeat(pad, space) + s[..source] == (Repeat(pad, n) + s)[..append]
    {
      hide Repeat;
      if leftAdjust { FilledSuffix(pad, n, s, append); } else { FilledPrefix(pad, n, s, append); }
      Lengths(pad, space);
      assert s[..|s|] == s;
    }

    lemma FilledSuffix(c: char, n: nat, s: string, left: nat)
      requires left <= n + |s|
      ensures |Repeat(c, n)| == n
      ensures (s + Repeat(c, n))[..left] ==
              if |s| < left then s + Repeat(c, left - |s|) else s[..left] + Repeat(c, 0)
    {}
  }

  // ---------------------------------------------------------------- runs

  datatype Write =
    | Text(s: string)
    | Adjust(s: string, leftAdjust: bool, zeroPad: bool, inWidth: nat, outWidth: nat)
    | Dec32(n: nat, width: nat)
    | Dec64(n: nat, width: nat)
    | Hex(n: nat, width: nat)

  predicate InRange(w: Write) {
    match w
    case Dec32(n, _) => n < 0x1_0000_0000
    case Dec64(n, _) => n < 0x1_0000_0000_0000_0000
    case Hex(n, _) => n < 0x1_0000_0000
    case _ => true
  }

  /** The text a write asks for. */
  function TextOf(w: Write): string {
    match w
    case Text(s) => s
    case Adjust(s, leftAdjust, zeroPad, inWidth, outWidth) => Adjusted(s, leftAdjust, zeroPad, inWidth, outWidth)
    case Dec32(n, width) => Padded(Numeral(n, 10), width)
    case Dec64(n, width) => Padded(Numeral(n, 10), width)
    case Hex(n, width) => Padded(Numeral(n, 16), width)
  }

  function TextOfAll(ws: seq<Write>): string {
    if ws == [] then [] else TextOfAll(ws[..|ws| - 1]) + TextOf(ws[|ws| - 1])
  }

  method Perform(b: Buf, w: Write)
    requires b.Valid() && InRange(w)
    modifies b, b.data
    ensures b.Valid() && b.ideal == old(b.ideal) + TextOf(w) && (b.data == old(b.data) || fresh(b.data))
  {
    hide Shown, Numeral, Padded, Adjusted;
    var cut: bool;
    match w
    case Text(s) => cut := b.Append(s);
    case Adjust(s, leftAdjust, zeroPad, inWidth, outWidth) =>
      cut := b.AdjustAppend(s, leftAdjust, zeroPad, inWidth, outWidth);
    case Dec32(n, width) => cut := b.PrintDec32(n, width);
    case Dec64(n, width) => cut := b.PrintDec64(n, width);
    case Hex(n, width) => cut := b.PrintHex(n, width);
  }

  /** After any run of writes from a restart the buffer holds all the text if that fits, and else
      the first max - 1 characters with the marker at the end. */
  method Run(b: Buf, ws: seq<Write>)
    requires b.Valid() && forall i | 0 <= i < |ws| :: InRange(ws[i])
    modifies b, b.data
    ensures b.Valid() && b.tail < b.data.Length
    ensures var text := TextOfAll(ws);
            if b.sizeMax == 0 || |text| <= b.sizeMax - 1 then b.Contents() == text
            else Cut(b.Contents(), text, b.sizeMax - 1, b.marker)
  {
    hide Shown, TextOf, InRange;
    b.Restart();
    for i := 0 to |ws|
      invariant b.Valid() && b.ideal == TextOfAll(ws[..i]) && (b.data == old(b.data) || fresh(b.data))
    {
      assert ws[..i + 1][..i] == ws[..i];
      Perform(b, ws[i]);
    }
    assert ws[..|ws|] == ws;
    ghost var text := TextOfAll(ws);
    if b.sizeMax > 0 && |text| > b.sizeMax - 1 {
      ShownWhenCut(text, b.sizeMax, b.marker);
    } else {
      ShownWhole(text, b.sizeMax, b.marker);
    }
  }

  lemma ShownWhole(text: string, max: nat, marker: string)
    requires max == 0 || |text| <= max - 1
    ensures Shown(text, max, marker) == text
  {}

  /** "hello world" in eight bytes. */
  lemma CutExample()
    ensures Shown("hello world", 8, "...") == "hell..."
  {
    ShownWhenCut("hello world", 8, "...");
    assert "hello world"[..4] == "hell";
    assert Shown("hello world", 8, "...") == "hell" + "...";
  }
}
