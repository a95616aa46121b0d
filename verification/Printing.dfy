/**
 The kernel's number printers: two that fill a buffer with digits and reverse it, one
 that fills a small buffer from the right and pads, and one for hexadecimal that fills
 from the right and then shifts the digits left over themselves.
 */
module Printing {
  import opened CString
  import opened Numerals

  const PRINT_BUF_LEN := 12

  type Int32 = x: int | INT_MIN <= x <= INT_MAX
  type ULong = x: int | 0 <= x < 0x1_0000_0000_0000_0000

  // ------------------------------------------------------------------ divide, then reverse

  /** The rest of a numeral still to be produced; nothing once the value is zero. */
  function Pending(value: nat, b: int, letter: char): string
    requires Base(b) && 'A' <= letter <= 'a'
  {
    if value == 0 then [] else Numeral(value, b, letter)
  }

  lemma PendingStep(value: nat, b: int, letter: char)
    requires Base(b) && 'A' <= letter <= 'a'
    ensures 0 <= value % b < b && value / b >= 0
    ensures Numeral(value, b, letter) == Pending(value / b, b, letter) + [DigitChar(value % b, letter)]
    ensures value > 0 ==> value / b < value
  {
    DivMod(value, b);
    if value < b {
      QuotientAndRest(value, 0, value, b);
    }
  }

  /** One round of a digit loop: the last digit of what is pending moves to the front of what is done. */
  lemma DigitMoves(all: string, value: nat, b: int, letter: char, done: string)
    requires Base(b) && 'A' <= letter <= 'a' && value > 0 && all == Pending(value, b, letter) + done
    ensures 0 <= value % b < b && 0 <= value / b < value
    ensures all == Pending(value / b, b, letter) + ([DigitChar(value % b, letter)] + done)
  {
    PendingStep(value, b, letter);
    var head, c := Pending(value / b, b, letter), DigitChar(value % b, letter);
    assert head + [c] + done == head + ([c] + done);
  }

  /** The stretch a[lo..hi] spells s from right to left. */
  ghost predicate Backwards(a: seq<char>, lo: nat, hi: nat, s: string) {
    lo <= hi <= |a| && |s| == hi - lo && forall k :: lo <= k < hi ==> a[k] == s[hi - 1 - k]
  }

  lemma BackwardsGrows(m: seq<char>, lo: nat, hi: nat, s: string, c: char)
    requires Backwards(m, lo, hi, s) && hi < |m|
    ensures Backwards(m[hi := c], lo, hi + 1, [c] + s)
  {
  }

  /** The digit loop: the numeral of v backwards, from position at. */
  method DigitsBackwards(a: array<char>, at: nat, v: nat) returns (p: nat)
    requires at + |Numeral(v, 10, 'a')| <= a.Length
    modifies a
    ensures p == at + |Numeral(v, 10, 'a')|
    ensures Backwards(a[..], at, p, Numeral(v, 10, 'a'))
    ensures forall k :: 0 <= k < at || p <= k < a.Length ==> a[k] == old(a[k])
  {
    ghost var n := Numeral(v, 10, 'a');
    PendingStep(v, 10, 'a');
    ghost var tail := [DigitChar(v % 10, 'a')];
    p := at;
    a[p] := DigitChar(v % 10, 'a');
    p := p + 1;
    var value := v / 10;
    while value > 0
      invariant 0 <= value && at < p <= at + |n|
      invariant n == Pending(value, 10, 'a') + tail
      invariant Backwards(a[..], at, p, tail)
      invariant forall k :: 0 <= k < at || p <= k < a.Length ==> a[k] == old(a[k])
    {
      DigitMoves(n, value, 10, 'a', tail);
      var c := DigitChar(value % 10, 'a');
      BackwardsGrows(a[..], at, p, tail, c);
      ghost var m := a[..];
      tail := [c] + tail;
      a[p] := c;
      assert a[..] == m[p := c];
      p := p + 1;
      value := value / 10;
    }
  }

  /** The swap loop: turn a stretch of the buffer round in place. */
  method ReverseInPlace(a: array<char>, lo: nat, hi: nat, ghost s: string)
    requires hi <= a.Length && Backwards(a[..], lo, hi, s)
    modifies a
    ensures a[lo..hi] == s
    ensures forall k :: 0 <= k < lo || hi <= k < a.Length ==> a[k] == old(a[k])
  {
    var l, h := lo, hi;
    while l + 1 < h
      invariant lo <= l <= hi && lo <= h <= hi && l + h == lo + hi
      invariant forall k :: lo <= k < l ==> a[k] == s[k - lo]
      invariant forall k :: h <= k < hi ==> a[k] == s[k - lo]
      invariant forall k :: l <= k < h ==> a[k] == s[hi - 1 - k]
      invariant forall k :: 0 <= k < lo || hi <= k < a.Length ==> a[k] == old(a[k])
      decreases h - l
    {
      a[l], a[h - 1] := a[h - 1], a[l];
      l := l + 1;
      h := h - 1;
    }
  }

  /** __utoa_r is exact for every unsigned long. */
  method UtoaR(val: ULong, str: array<char>)
    requires |Numeral(val, 10, 'a')| < str.Length
    modifies str
    ensures Terminated(str[..], 0) && Text(str[..], 0) == Numeral(val, 10, 'a')
  {
    var p := DigitsBackwards(str, 0, val);
    str[p] := NUL;
    ReverseInPlace(str, 0, p, Numeral(val, 10, 'a'));
    NumeralIsText(val);
    TextInFront(str[..], Numeral(val, 10, 'a'));
  }

  lemma {:induction false} NumeralIsText(v: nat)
    ensures NulFree(Numeral(v, 10, 'a'))
    ensures forall i :: 0 <= i < |Numeral(v, 10, 'a')| ==> '0' <= Numeral(v, 10, 'a')[i] <= '9'
    decreases v
  {
    if v >= 10 {
      NumeralIsText(v / 10);
    }
  }

  /** The digits of |val| backwards; INT_MIN goes by way of INT_MAX, whose last digit is then raised. */
  method MagnitudeBackwards(val: Int32, str: array<char>, start: nat) returns (p: nat)
    requires start + |Numeral(Magnitude(val), 10, 'a')| <= str.Length
    modifies str
    ensures p == start + |Numeral(Magnitude(val), 10, 'a')|
    ensures Backwards(str[..], start, p, Numeral(Magnitude(val), 10, 'a'))
    ensures forall k :: 0 <= k < start || p <= k < str.Length ==> str[k] == old(str[k])
  {
    var value: int := val;
    var minFlag := 0;
    LastDigitOfIntMin();
    if 0 > value {
      if -INT_MAX > value {
        minFlag := INT_MAX;
        value := INT_MAX;
      } else {
        value := -value;
      }
    }
    p := DigitsBackwards(str, start, value);
    if minFlag != 0 {
      str[start] := (str[start] as int + 1) as char;
    }
  }

  function Magnitude(v: int): nat {
    if v < 0 then -v else v
  }

  /** kinguio_itoa: the text of every 32-bit integer. */
  method KinguioItoa(val: Int32, str: array<char>)
    requires |IntText(val)| < str.Length
    modifies str
    ensures Terminated(str[..], 0) && Text(str[..], 0) == IntText(val)
  {
    var start := 0;
    if 0 > val {
      str[0] := '-';
      start := 1;
    }
    var p := MagnitudeBackwards(val, str, start);
    str[p] := NUL;
    ReverseInPlace(str, start, p, Numeral(Magnitude(val), 10, 'a'));
    NumeralIsText(Magnitude(val));
    assert str[..p] == str[..start] + str[start..p];
    assert str[..p] == IntText(val);
    TextInFront(str[..], IntText(val));
  }

  lemma LastDigitOfIntMin()
    ensures |Numeral(2147483648, 10, 'a')| == |Numeral(INT_MAX, 10, 'a')|
    ensures Numeral(INT_MAX, 10, 'a') == Numeral(214748364, 10, 'a') + ['7']
    ensures Numeral(2147483648, 10, 'a') == Numeral(214748364, 10, 'a') + ['8']
  {
  }

  // ------------------------------------------------------------------ padded printing

  /** The PAD_RIGHT and PAD_ZERO bits of a conversion. */
  datatype Pad = Pad(right: bool, zero: bool)

  function Repeat(c: char, n: int): string {
    if n <= 0 then [] else [c] + Repeat(c, n - 1)
  }

  function Padding(s: string, width: int, pad: Pad): string {
    Repeat(if width > 0 && pad.zero then '0' else ' ', width - |s|)
  }

  /** A string in a field: padded on one side if it is shorter than the field. */
  function Field(s: string, width: int, pad: Pad): string {
    if pad.right then s + Padding(s, width, pad) else Padding(s, width, pad) + s
  }

  lemma {:induction false} RepeatSnoc(c: char, n: int)
    requires n > 0
    ensures Repeat(c, n) == Repeat(c, n - 1) + [c]
  {
    if n > 1 {
      RepeatSnoc(c, n - 1);
    }
  }

  lemma {:induction false} RepeatLength(c: char, n: int)
    ensures |Repeat(c, n)| == if n <= 0 then 0 else n
  {
    if n > 0 {
      RepeatLength(c, n - 1);
    }
  }

  method EmitPadding(c: char, width: int) returns (out: string)
    ensures out == Repeat(c, width)
  {
    out := [];
    var w := width;
    while w > 0
      invariant 0 <= w <= width || w == width <= 0
      invariant out == Repeat(c, width - w)
    {
      RepeatSnoc(c, width - w + 1);
      out := out + [c];
      w := w - 1;
    }
    assert width <= 0 ==> Repeat(c, width - w) == Repeat(c, width);
  }

  /** prints, on a string in memory. */
  method Prints(m: seq<char>, field: int, pad: Pad) returns (out: string, pc: int)
    requires Terminated(m, 0)
    ensures out == Field(Text(m, 0), field, pad) && pc == |out|
  {
    var width, padchar := MeasurePadding(m, field, pad);
    out := [];
    if !pad.right {
      out := EmitPadding(padchar, width);
      width := 0;
    }
    var middle := EmitText(m);
    out := out + middle;
    var rest := EmitPadding(padchar, width);
    out := out + rest;
    pc := |out|;
  }

  /** The first part of prints: how much padding, and of what. */
  method MeasurePadding(m: seq<char>, field: int, pad: Pad) returns (width: int, padchar: char)
    requires Terminated(m, 0)
    ensures Repeat(padchar, width) == Padding(Text(m, 0), field, pad)
  {
    width, padchar := field, ' ';
    if width > 0 {
      var len := 0;
      while m[len] != NUL
        invariant 0 <= len <= StrEnd(m, 0)
        decreases |m| - len
      {
        len := len + 1;
      }
      StrEndIs(m, 0, len);
      if len >= width {
        width := 0;
      } else {
        width := width - len;
      }
      if pad.zero {
        padchar := '0';
      }
    }
  }

  method EmitText(m: seq<char>) returns (out: string)
    requires Terminated(m, 0)
    ensures out == Text(m, 0)
  {
    out := [];
    var i := 0;
    while m[i] != NUL
      invariant 0 <= i <= StrEnd(m, 0)
      invariant out == m[..i]
      decreases |m| - i
    {
      out := out + [m[i]];
      i := i + 1;
    }
    StrEndIs(m, 0, i);
  }

  /** What printi is to print: the number as unsigned, or with a sign in signed decimal. */
  function PrintiText(i: Int32, b: int, sg: bool, width: int, pad: Pad, letter: char): string
    requires Base(b) && 'A' <= letter <= 'a'
  {
    if sg && b == 10 && i < 0 then
      if width != 0 && pad.zero then "-" + Field(Numeral(Magnitude(i), b, letter), width - 1, pad)
      else Field("-" + Numeral(Magnitude(i), b, letter), width, pad)
    else
      Field(Numeral(Unsigned(i), b, letter), width, pad)
  }

  /** The conversion from int to unsigned int. */
  function Unsigned(i: Int32): nat {
    if i < 0 then i + 0x1_0000_0000 else i
  }

  /** Ten digits in base ten, eight in base sixteen: the 12-byte buffer has room for them and a sign. */
  lemma PrintBufferSuffices(u: nat, b: int, letter: char)
    requires (b == 10 || b == 16) && 'A' <= letter <= 'a' && u < 0x1_0000_0000
    ensures |Numeral(u, b, letter)| <= PRINT_BUF_LEN - 2
  {
    if b == 10 {
      assert Pow(10, 5) == 100000;
      assert Pow(10, 10) == 10000000000 by {
        assert Pow(10, 6) == 10 * Pow(10, 5);
        assert Pow(10, 7) == 10 * Pow(10, 6);
        assert Pow(10, 8) == 10 * Pow(10, 7);
        assert Pow(10, 9) == 10 * Pow(10, 8);
      }
      NumeralLength(u, 10, letter, 10);
    } else {
      assert Pow(16, 4) == 65536;
      assert Pow(16, 8) == 0x1_0000_0000 by {
        assert Pow(16, 5) == 16 * Pow(16, 4);
        assert Pow(16, 6) == 16 * Pow(16, 5);
        assert Pow(16, 7) == 16 * Pow(16, 6);
      }
      NumeralLength(u, 16, letter, 8);
    }
  }

  /** The number whose digits printi prints. */
  function Printed(i: Int32, b: int, sg: bool): nat {
    if sg && b == 10 && i < 0 then Magnitude(i) else Unsigned(i)
  }

  /** The digits leave room for their terminator. */
  predicate Fits(i: Int32, b: int, sg: bool, letter: char)
    requires Base(b) && 'A' <= letter <= 'a'
  {
    |Numeral(Printed(i, b, sg), b, letter)| < PRINT_BUF_LEN
  }

  /** The 12-byte buffer is enough for every int exactly in the bases from eight on. */
  lemma PrintBufferSufficesIff(b: int, sg: bool, letter: char)
    requires Base(b) && 'A' <= letter <= 'a'
    ensures (forall i: Int32 :: Fits(i, b, sg, letter)) <==> b >= 8
  {
    PowersOfSevenAndEight();
    if b >= 8 {
      PowMonotone(8, b, 11);
      forall i: Int32 ensures Fits(i, b, sg, letter) {
        NumeralLength(Printed(i, b, sg), b, letter, 11);
      }
    } else {
      PowMonotone(b, 7, 11);
      NumeralIsLong(Printed(-1, b, sg), b, letter, 11);
      assert !Fits(-1, b, sg, letter);
    }
  }

  lemma PowersOfSevenAndEight()
    ensures Pow(7, 11) == 1977326743 && Pow(8, 11) == 8589934592
  {
    assert Pow(7, 3) == 343 && Pow(8, 3) == 512;
    assert Pow(7, 5) == 49 * Pow(7, 3) && Pow(8, 5) == 64 * Pow(8, 3);
    assert Pow(7, 7) == 49 * Pow(7, 5) && Pow(8, 7) == 64 * Pow(8, 5);
    assert Pow(7, 9) == 49 * Pow(7, 7) && Pow(8, 9) == 64 * Pow(8, 7);
    assert Pow(7, 11) == 49 * Pow(7, 9) && Pow(8, 11) == 64 * Pow(8, 9);
  }

  /** The digit loop of printi: fills the buffer from the right. */
  method DigitsFromRight(buf: array<char>, u: nat, b: int, letter: char) returns (s: nat)
    requires Base(b) && 'A' <= letter <= 'a' && u > 0
    requires buf.Length == PRINT_BUF_LEN && |Numeral(u, b, letter)| < PRINT_BUF_LEN
    modifies buf
    ensures s == PRINT_BUF_LEN - 1 - |Numeral(u, b, letter)|
    ensures buf[s..] == Numeral(u, b, letter) + [NUL]
  {
    ghost var all := Numeral(u, b, letter) + [NUL];
    s := PRINT_BUF_LEN - 1;
    buf[s] := NUL;
    var v := u;
    ghost var done: string := [NUL];
    while v > 0
      invariant 0 <= v && 0 <= s <= PRINT_BUF_LEN - 1
      invariant buf[s..] == done
      invariant all == Pending(v, b, letter) + done
    {
      DigitMoves(all, v, b, letter, done);
      s := s - 1;
      buf[s] := DigitChar(v % b, letter);
      done := [DigitChar(v % b, letter)] + done;
      v := v / b;
    }
  }

  /** printi; the digits must fit its buffer, as they always do in the bases its callers pass. */
  method Printi(i: Int32, b: int, sg: bool, width: int, pad: Pad, letter: char) returns (out: string, pc: int)
    requires Base(b) && 'A' <= letter <= 'a' && Fits(i, b, sg, letter)
    ensures out == PrintiText(i, b, sg, width, pad, letter) && pc == |out|
  {
    if i == 0 {
      TextInFront(['0', NUL], "0");
      out, pc := Prints(['0', NUL], width, pad);
      return;
    }
    var printBuf := new char[PRINT_BUF_LEN];
    var u: nat := Unsigned(i);
    var neg := false;
    if sg && b == 10 && i < 0 {
      neg := true;
      u := Magnitude(i);
      PrintBufferSuffices(u, b, letter);
    }
    var s := DigitsFromRight(printBuf, u, b, letter);
    ghost var n := Numeral(u, b, letter);
    assert printBuf[s..][|n|] == NUL && printBuf[s..][..|n|] == n;
    NumeralCharsAreNotNul(u, b, letter);
    if neg && !(width != 0 && pad.zero) {
      s := s - 1;
      printBuf[s] := '-';
      assert printBuf[s..] == ['-'] + (n + [NUL]);
      n := "-" + n;
      assert printBuf[s..][..|n|] == n;
    }
    TextInFront(printBuf[s..], n);
    if neg && width != 0 && pad.zero {
      out, pc := Prints(printBuf[s..], width - 1, pad);
      out, pc := "-" + out, 1 + pc;
    } else {
      out, pc := Prints(printBuf[s..], width, pad);
    }
  }

  lemma {:induction false} NumeralCharsAreNotNul(u: nat, b: int, letter: char)
    requires Base(b) && 'A' <= letter <= 'a'
    ensures NulFree(Numeral(u, b, letter))
    decreases u
  {
    if u >= b {
      DivMod(u, b);
      NumeralCharsAreNotNul(u / b, b, letter);
    }
  }

  /** With no field width the two signed decimal printers agree on every int. */
  lemma PrintersAgree(i: Int32, pad: Pad)
    ensures PrintiText(i, 10, true, 0, pad, 'a') == IntText(i)
  {
    assert Repeat(' ', 0 - |IntText(i)|) == [];
  }

  /**
   A string in a field: at the left end with PAD_RIGHT and else at the right end; what the field has left over
   holds zeros with PAD_ZERO and else blanks.
   */
  lemma FieldShape(s: string, width: int, pad: Pad)
    ensures var t := Field(s, width, pad);
      && |t| == (if width > |s| then width else |s|)
      && (pad.right ==> t[..|s|] == s && forall k :: |s| <= k < |t| ==> t[k] == if pad.zero then '0' else ' ')
      && (!pad.right ==> t[|t| - |s|..] == s && forall k :: 0 <= k < |t| - |s| ==> t[k] == if pad.zero then '0' else ' ')
  {
    var c := if width > 0 && pad.zero then '0' else ' ';
    RepeatLength(c, width - |s|);
    if width > |s| {
      RepeatAll(c, width - |s|);
    }
  }

  /** No field width, no padding. */
  lemma NoField(s: string, width: int, pad: Pad)
    requires width <= 0
    ensures Field(s, width, pad) == s
  {
    FieldShape(s, width, pad);
  }

  /** Without a sign the digits are those of the number modulo 2^32. */
  lemma PrintiUnsignedValue(i: Int32, b: int, width: int, pad: Pad, letter: char)
    requires Base(b) && 'A' <= letter <= 'a' && width <= 0
    ensures Value(PrintiText(i, b, false, width, pad, letter), b, letter) == if i < 0 then i + 4294967296 else i
  {
    NoField(Numeral(Unsigned(i), b, letter), width, pad);
    NumeralValue(Unsigned(i), b, letter);
  }

  /** The output is as long as the field or the number, whichever is longer. */
  lemma PrintiLength(i: Int32, b: int, sg: bool, width: int, pad: Pad, letter: char)
    requires Base(b) && 'A' <= letter <= 'a'
    ensures var natural := |PrintiText(i, b, sg, 0, pad, letter)|;
      |PrintiText(i, b, sg, width, pad, letter)| == if width > natural then width else natural
  {
    var n := if sg && b == 10 && i < 0 then Numeral(Magnitude(i), b, letter) else Numeral(Unsigned(i), b, letter);
    forall s: string, w: int ensures |Field(s, w, pad)| == if w > |s| then w else |s| {
      RepeatLength(if w > 0 && pad.zero then '0' else ' ', w - |s|);
    }
  }

  // ------------------------------------------------------------------ hexadecimal

  /** Exactly len hexadecimal digits of val, the high ones dropped. */
  function FixedHex(val: nat, len: nat): (s: string)
    ensures |s| == len
    decreases len
  {
    if len == 0 then [] else FixedHex(val / 16, len - 1) + [DigitChar(val % 16, 'A')]
  }

  /** The text without its leading zeros; a text of zeros only is kept. */
  function WithoutZeros(s: string): string {
    var k := LeadingZeros(s);
    if k == |s| then s else s[k..]
  }

  function LeadingZeros(s: string): (k: nat)
    ensures k <= |s|
    ensures forall j :: 0 <= j < k ==> s[j] == '0'
    ensures k < |s| ==> s[k] != '0'
  {
    if s == [] || s[0] != '0' then 0 else 1 + LeadingZeros(s[1..])
  }

  lemma {:induction false} LeadingZerosIs(s: string, k: nat)
    requires k <= |s| && (forall j :: 0 <= j < k ==> s[j] == '0') && (k < |s| ==> s[k] != '0')
    ensures LeadingZeros(s) == k
  {
    if k > 0 {
      LeadingZerosIs(s[1..], k - 1);
    }
  }

  /** When len digits are enough, they are the numeral behind some zeros. */
  lemma {:induction false} FixedHexIsNumeral(val: nat, len: nat)
    requires 0 < val < Pow(16, len)
    ensures |Numeral(val, 16, 'A')| <= len
    ensures FixedHex(val, len) == Repeat('0', len - |Numeral(val, 16, 'A')|) + Numeral(val, 16, 'A')
    decreases len
  {
    var n := Numeral(val, 16, 'A');
    if val < 16 {
      FixedHexOfZero(len - 1);
    } else {
      QuotientBelow(val, 16, Pow(16, len - 1));
      FixedHexIsNumeral(val / 16, len - 1);
      var h := Numeral(val / 16, 16, 'A');
      assert n == h + [DigitChar(val % 16, 'A')];
      assert Repeat('0', len - |n|) + n == Repeat('0', len - 1 - |h|) + h + [DigitChar(val % 16, 'A')];
    }
  }

  lemma {:induction false} FixedHexOfZero(len: nat)
    ensures FixedHex(0, len) == Repeat('0', len)
  {
    if len > 0 {
      FixedHexOfZero(len - 1);
      RepeatSnoc('0', len);
    }
  }

  lemma {:induction false} RepeatAll(c: char, n: nat)
    ensures |Repeat(c, n)| == n && forall j :: 0 <= j < n ==> Repeat(c, n)[j] == c
  {
    if n > 0 {
      RepeatAll(c, n - 1);
    }
  }

  /** The hexadecimal digits of any value are those of its remainder modulo 16^len. */
  lemma {:induction false} FixedHexValue(val: nat, len: nat) returns (k: nat)
    ensures 0 <= Value(FixedHex(val, len), 16, 'A') < Pow(16, len)
    ensures val == k * Pow(16, len) + Value(FixedHex(val, len), 16, 'A')
    decreases len
  {
    if len == 0 {
      k := val;
    } else {
      var q, r, front := val / 16, val % 16, FixedHex(val / 16, len - 1);
      k := FixedHexValue(q, len - 1);
      DigitRoundTrip(r, 'A');
      ValueAppend(front, DigitChar(r, 'A'), 16, 'A');
      HexStep(val, q, r, k, Pow(16, len - 1), Value(front, 16, 'A'));
    }
  }

  lemma HexStep(val: int, q: int, r: int, k: int, p: int, v: int)
    requires val == 16 * q + r && 0 <= r < 16 && q == k * p + v && 0 <= v < p
    ensures val == k * (16 * p) + (v * 16 + r) && 0 <= v * 16 + r < 16 * p
  {
    assert k * (16 * p) == 16 * (k * p);
  }

  /**
   For every value that fits, what the hexadecimal printer leaves is the numeral: the only
   text of hexadecimal digits without a leading zero whose value is the number printed.
   */
  lemma HexIsCanonical(val: nat, len: nat, s: string)
    requires 0 < val < Pow(16, len)
    ensures WithoutZeros(FixedHex(val, len)) == Numeral(val, 16, 'A')
    ensures Value(WithoutZeros(FixedHex(val, len)), 16, 'A') == val
    ensures |s| > 0 && Digits(s, 16, 'A') && s[0] != '0' && Value(s, 16, 'A') == val ==>
      s == WithoutZeros(FixedHex(val, len))
  {
    var n := Numeral(val, 16, 'A');
    FixedHexIsNumeral(val, len);
    RepeatAll('0', len - |n|);
    NumeralHasNoLeadingZero(val, 16, 'A');
    LeadingZerosIs(FixedHex(val, len), len - |n|);
    NumeralValue(val, 16, 'A');
    if |s| > 0 && Digits(s, 16, 'A') && s[0] != '0' && Value(s, 16, 'A') == val {
      NumeralIsUnique(s, 16, 'A');
    }
  }

  /** strcpy to an earlier place in the same buffer: the copy runs forward, so nothing is lost. */
  method StrcpyDown(a: array<char>, to: nat, from: nat, end: nat)
    requires to <= from <= end < a.Length && a[end] == NUL
    requires forall k :: from <= k < end ==> a[k] != NUL
    modifies a
    ensures forall k :: to <= k <= to + (end - from) ==> a[k] == old(a[from + k - to])
    ensures forall k :: 0 <= k < to || to + (end - from) < k < a.Length ==> a[k] == old(a[k])
  {
    var i := 0;
    while a[from + i] != NUL
      invariant 0 <= i <= end - from
      invariant forall k :: to <= k < to + i ==> a[k] == old(a[from + k - to])
      invariant forall k :: 0 <= k < to || to + i <= k < a.Length ==> a[k] == old(a[k])
      decreases end - from - i
    {
      a[to + i] := a[from + i];
      i := i + 1;
    }
    a[to + i] := NUL;
  }

  /** The nibble loop: len digits, the lowest at the right end. */
  method NibblesFromRight(dest: array<char>, val: nat, len: nat)
    requires len < dest.Length
    modifies dest
    ensures dest[..len] == FixedHex(val, len)
    ensures forall k :: len <= k < dest.Length ==> dest[k] == old(dest[k])
  {
    var n, cp := val, len;
    while cp > 0
      invariant 0 <= n && 0 <= cp <= len
      invariant FixedHex(val, len) == FixedHex(n, cp) + dest[cp..len]
      invariant forall k :: len <= k < dest.Length ==> dest[k] == old(dest[k])
    {
      var x := n % 16;
      ghost var done := dest[cp..len];
      cp := cp - 1;
      dest[cp] := DigitChar(x, 'A');
      assert dest[cp..len] == [DigitChar(x, 'A')] + done;
      assert FixedHex(n, cp + 1) == FixedHex(n / 16, cp) + [DigitChar(x, 'A')];
      n := n / 16;
    }
  }

  lemma {:induction false} FixedHexIsText(val: nat, len: nat)
    ensures NulFree(FixedHex(val, len))
    decreases len
  {
    if len > 0 {
      FixedHexIsText(val / 16, len - 1);
    }
  }

  /** kinguio_i2hex_versao2: the hexadecimal text, and NULs up to the given length. */
  method KinguioI2hex(val: ULong, dest: array<char>, len: nat)
    requires 1 < dest.Length && len < dest.Length
    modifies dest
    ensures Terminated(dest[..], 0)
    ensures Text(dest[..], 0) == if val == 0 then "0" else WithoutZeros(FixedHex(val, len))
    ensures val > 0 ==> forall k :: |Text(dest[..], 0)| <= k <= len ==> dest[k] == NUL
    ensures forall k :: len < k < dest.Length && 1 < k ==> dest[k] == old(dest[k])
  {
    if val == 0 {
      dest[0] := '0';
      dest[1] := NUL;
      TextInFront(dest[..], "0");
      return;
    }
    NibblesFromRight(dest, val, len);
    dest[len] := NUL;
    FixedHexIsText(val, len);
    ShiftOutZeros(dest, len, FixedHex(val, len));
    var n := Strlen(dest);
    ClearTail(dest, n, len);
  }

  /** memset of everything from the end of the string up to len. */
  method ClearTail(dest: array<char>, n: nat, len: nat)
    requires Terminated(dest[..], 0) && n == |Text(dest[..], 0)| <= len < dest.Length && dest[len] == NUL
    modifies dest
    ensures Terminated(dest[..], 0) && Text(dest[..], 0) == old(Text(dest[..], 0))
    ensures forall k :: n <= k <= len ==> dest[k] == NUL
    ensures forall k :: len < k < dest.Length ==> dest[k] == old(dest[k])
  {
    ghost var text := Text(dest[..], 0);
    var i := n;
    while i < len
      invariant n <= i <= len
      invariant forall k :: 0 <= k < n || len <= k < dest.Length ==> dest[k] == old(dest[k])
      invariant forall k :: n <= k < i ==> dest[k] == NUL
    {
      dest[i] := NUL;
      i := i + 1;
    }
    assert dest[..n] == text;
    TextInFront(dest[..], text);
  }

  /** The loop that looks for the first non-zero digit and moves the rest down to the start. */
  method ShiftOutZeros(dest: array<char>, len: nat, ghost digits: string)
    requires len < dest.Length && dest[..len] == digits && dest[len] == NUL && NulFree(digits)
    modifies dest
    ensures Terminated(dest[..], 0) && Text(dest[..], 0) == WithoutZeros(digits)
    ensures dest[len] == NUL
    ensures forall k :: len < k < dest.Length ==> dest[k] == old(dest[k])
  {
    assert forall k :: 0 <= k < len ==> dest[k] == dest[..len][k] == digits[k];
    var cp := 0;
    while cp < len && dest[cp] == '0'
      invariant 0 <= cp <= len
      invariant forall j :: 0 <= j < cp ==> digits[j] == '0'
    {
      cp := cp + 1;
    }
    LeadingZerosIs(digits, cp);
    ghost var text := digits;
    if cp < len {
      text := digits[cp..];
      StrcpyDown(dest, 0, cp, len);
      assert dest[..|text|] == text;
    }
    TextInFront(dest[..], text);
  }

  /** kinguio_utoa: exact in both radices for every unsigned long. */
  method KinguioUtoa(val: ULong, dst: array<char>, radix: int)
    requires 16 < dst.Length && |Numeral(val, 10, 'a')| < dst.Length
    modifies dst
    ensures Terminated(dst[..], 0)
    ensures Text(dst[..], 0) == if radix == 16 then Numeral(val, 16, 'A') else Numeral(val, 10, 'a')
  {
    if radix == 16 {
      SixteenDigitsSuffice();
      if val > 0 {
        HexIsCanonical(val, 16, "");
      }
      KinguioI2hex(val, dst, 16);
    } else {
      UtoaR(val, dst);
    }
  }

  lemma SixteenDigitsSuffice()
    ensures Pow(16, 16) == 0x1_0000_0000_0000_0000
  {
    assert Pow(16, 4) == 65536;
    assert Pow(16, 8) == 0x1_0000_0000 by {
      assert Pow(16, 6) == 256 * Pow(16, 4);
    }
    assert Pow(16, 12) == 0x1_0000_0000_0000 by {
      assert Pow(16, 10) == 256 * Pow(16, 8);
    }
    assert Pow(16, 14) == 256 * Pow(16, 12);
  }
}
