/**
 k_atoi: skip to the first digit or sign, then accumulate digits in a 32-bit integer.
 */
module Atoi {
  import opened CString
  import opened Numerals
  import Printing

  /** What a 32-bit register holds of a number. */
  function Wrap32(x: int): int {
    (x + 0x8000_0000) % 0x1_0000_0000 - 0x8000_0000
  }

  predicate IsDecimal(c: char) {
    '0' <= c <= '9'
  }

  predicate IsSign(c: char) {
    c == '-' || c == '+'
  }

  function SkipTo(m: seq<char>, i: nat): (k: nat)
    requires Terminated(m, i)
    ensures i <= k <= StrEnd(m, i)
    decreases |m| - i
  {
    if m[i] == NUL || IsDecimal(m[i]) || IsSign(m[i]) then i else SkipTo(m, i + 1)
  }

  /** The digit loop from position i with rv accumulated so far. */
  function Accumulate(m: seq<char>, i: nat, rv: int): int
    requires Terminated(m, i)
    decreases |m| - i
  {
    if IsDecimal(m[i]) then Accumulate(m, i + 1, Wrap32(rv * 10 + (m[i] as int - '0' as int))) else rv
  }

  function Parse(m: seq<char>): int
    requires Terminated(m, 0)
  {
    var k := SkipTo(m, 0);
    SuffixTerminated(m, 0, k);
    if IsSign(m[k]) then
      SuffixTerminated(m, 0, k + 1);
      var rv := Accumulate(m, k + 1, 0);
      if m[k] == '-' then Wrap32(-rv) else rv
    else
      Accumulate(m, k, 0)
  }

  lemma SuffixTerminated(m: seq<char>, i: nat, k: nat)
    requires Terminated(m, i) && i <= k <= StrEnd(m, i) + 1
    ensures k <= StrEnd(m, i) ==> Terminated(m, k) && StrEnd(m, k) == StrEnd(m, i)
  {
    if k <= StrEnd(m, i) {
      StrEndIs(m, k, StrEnd(m, i));
    }
  }

  method KAtoi(m: seq<char>) returns (n: int)
    requires Terminated(m, 0)
    ensures n == Parse(m)
  {
    var p := 0;
    while m[p] != NUL && !(IsDecimal(m[p]) || IsSign(m[p]))
      invariant 0 <= p <= StrEnd(m, 0)
      invariant Terminated(m, p) && StrEnd(m, p) == StrEnd(m, 0)
      invariant SkipTo(m, 0) == SkipTo(m, p)
      decreases |m| - p
    {
      SuffixTerminated(m, 0, p + 1);
      p := p + 1;
    }
    var sign := m[p] == '-';
    if m[p] == '-' || m[p] == '+' {
      SuffixTerminated(m, 0, p + 1);
      p := p + 1;
    }
    var rv := 0;
    ghost var start := p;
    while IsDecimal(m[p])
      invariant start <= p < |m| && Terminated(m, p)
      invariant Accumulate(m, start, 0) == Accumulate(m, p, rv)
      decreases |m| - p
    {
      rv := Wrap32(rv * 10 + (m[p] as int - '0' as int));
      p := p + 1;
    }
    if sign {
      return Wrap32(-rv);
    }
    return rv;
  }

  // ------------------------------------------------------------------ reading back what was printed

  ghost predicate AllDecimal(m: seq<char>, i: nat, j: nat)
    requires i <= j <= |m|
  {
    forall k :: i <= k < j ==> IsDecimal(m[k])
  }

  lemma WrapShift(y: int, k: int)
    ensures Wrap32(y + 0x1_0000_0000 * k) == Wrap32(y)
  {
  }

  lemma WrapThenAppend(v: int, d: int)
    ensures Wrap32(Wrap32(v) * 10 + d) == Wrap32(v * 10 + d)
  {
    var k := (v + 0x8000_0000) / 0x1_0000_0000;
    assert Wrap32(v) == v - 0x1_0000_0000 * k;
    WrapShift(v * 10 + d, -10 * k);
  }

  lemma AccumulateStep(m: seq<char>, k: nat, v: int, d: int)
    requires Terminated(m, k) && Terminated(m, k + 1) && IsDecimal(m[k]) && d == m[k] as int - '0' as int
    ensures Accumulate(m, k, Wrap32(v)) == Accumulate(m, k + 1, Wrap32(v * 10 + d))
  {
    WrapThenAppend(v, d);
  }

  /** After the digits up to j, the register holds their value, wrapped. */
  lemma {:induction false} AccumulatesValue(m: seq<char>, i: nat, j: nat)
    requires Terminated(m, i) && i <= j <= StrEnd(m, i) && AllDecimal(m, i, j)
    ensures Terminated(m, j)
    ensures Accumulate(m, i, 0) == Accumulate(m, j, Wrap32(Value(m[i..j], 10, 'a')))
    decreases j - i
  {
    SuffixTerminated(m, i, j);
    if i == j {
      assert m[i..j] == [];
    } else {
      AccumulatesValue(m, i, j - 1);
      SuffixTerminated(m, i, j - 1);
      ValueOfSlice(m, i, j);
      AccumulateStep(m, j - 1, Value(m[i..j - 1], 10, 'a'), DigitValue(m[j - 1], 'a'));
    }
  }

  lemma ValueOfSlice(m: seq<char>, i: nat, j: nat)
    requires i < j <= |m|
    ensures Value(m[i..j], 10, 'a') == Value(m[i..j - 1], 10, 'a') * 10 + DigitValue(m[j - 1], 'a')
  {
    ValueAppend(m[i..j - 1], m[j - 1], 10, 'a');
    assert m[i..j] == m[i..j - 1] + [m[j - 1]];
  }

  lemma {:induction false} NumeralIsDecimal(v: nat)
    ensures AllDecimal(Numeral(v, 10, 'a'), 0, |Numeral(v, 10, 'a')|)
    decreases v
  {
    if v >= 10 {
      NumeralIsDecimal(v / 10);
    }
  }

  lemma {:induction false} SkipsGarbage(m: seq<char>, i: nat, k: nat)
    requires Terminated(m, i) && i <= k <= StrEnd(m, i)
    requires forall j :: i <= j < k ==> !IsDecimal(m[j]) && !IsSign(m[j])
    requires IsDecimal(m[k]) || IsSign(m[k])
    ensures SkipTo(m, i) == k
    decreases k - i
  {
    if i < k {
      SuffixTerminated(m, i, i + 1);
      SkipsGarbage(m, i + 1, k);
    }
  }

  /** The digits from `first` to `e` are read as their value, wrapped. */
  lemma ReadsDigits(m: seq<char>, first: nat, e: nat)
    requires Terminated(m, first) && first <= e <= StrEnd(m, first)
    requires AllDecimal(m, first, e) && !IsDecimal(m[e])
    ensures Accumulate(m, first, 0) == Wrap32(Value(m[first..e], 10, 'a'))
  {
    AccumulatesValue(m, first, e);
  }

  lemma ParseUnsigned(m: seq<char>, at: nat)
    requires Terminated(m, 0) && SkipTo(m, 0) == at && IsDecimal(m[at])
    ensures Terminated(m, at) && Parse(m) == Accumulate(m, at, 0)
  {
    SuffixTerminated(m, 0, at);
  }

  lemma ParseSigned(m: seq<char>, at: nat)
    requires Terminated(m, 0) && SkipTo(m, 0) == at && IsSign(m[at])
    ensures Terminated(m, at + 1)
    ensures Parse(m) == if m[at] == '-' then Wrap32(-Accumulate(m, at + 1, 0)) else Accumulate(m, at + 1, 0)
  {
    SuffixTerminated(m, 0, at + 1);
  }

  /** What is read behind an optional sign: the value of the digits, wrapped to 32 bits, and negated behind a minus. */
  function SignedValue(sign: string, digits: string): int {
    if sign == "-" then Wrap32(-Wrap32(Value(digits, 10, 'a'))) else Wrap32(Value(digits, 10, 'a'))
  }

  ghost predicate AllDigits(s: string) {
    forall k :: 0 <= k < |s| ==> '0' <= s[k] <= '9'
  }

  /**
   k_atoi on any text: skip whatever is neither digit nor sign, take one sign of either kind, and read digits up to the
   first other character.  No digits read as 0.
   */
  lemma AtoiReads(m: seq<char>, before: string, sign: string, digits: string, after: string)
    requires m == before + (sign + digits) + after && (sign == "" || sign == "-" || sign == "+")
    requires NulFree(before) && forall k :: 0 <= k < |before| ==> !IsDecimal(before[k]) && !IsSign(before[k])
    requires AllDigits(digits) && sign + digits != []
    requires |after| > 0 && !('0' <= after[0] <= '9') && NUL in after
    ensures Terminated(m, 0) && Parse(m) == SignedValue(sign, digits)
  {
    SignedLayout(m, before, sign, digits, after);
    ReadsAs(m, |before|, |before| + |sign|, |before| + |sign| + |digits|, sign, digits);
  }

  lemma ReadsAs(m: seq<char>, at: nat, first: nat, e: nat, sign: string, digits: string)
    requires Terminated(m, 0) && at <= first <= e <= StrEnd(m, 0) && at < e && first == at + |sign|
    requires forall k :: 0 <= k < at ==> !IsDecimal(m[k]) && !IsSign(m[k])
    requires sign == "" || sign == "-" || sign == "+"
    requires sign != "" ==> m[at] == sign[0]
    requires AllDecimal(m, first, e) && !IsDecimal(m[e]) && m[first..e] == digits
    ensures Parse(m) == SignedValue(sign, digits)
  {
    SkipsGarbage(m, 0, at);
    SuffixTerminated(m, 0, first);
    ReadsDigits(m, first, e);
    if sign == "" {
      ParseUnsigned(m, at);
    } else {
      ParseSigned(m, at);
    }
  }

  /**
   k_atoi inverts signed decimal printing for every 32-bit integer, whatever text without
   digits or signs comes before it and whatever non-digit follows.
   */
  lemma AtoiInvertsPrinting(m: seq<char>, before: string, v: int, after: string)
    requires m == before + IntText(v) + after
    requires INT_MIN <= v <= INT_MAX
    requires NulFree(before) && forall k :: 0 <= k < |before| ==> !IsDecimal(before[k]) && !IsSign(before[k])
    requires |after| > 0 && !IsDecimal(after[0]) && NUL in after
    ensures Terminated(m, 0) && Parse(m) == v
  {
    var n := Numeral(Printing.Magnitude(v), 10, 'a');
    assert IntText(v) == Sign(v) + ([] + n);
    ReadsNumber(m, before, v, [], n, after);
  }

  function Sign(v: int): string {
    if v < 0 then "-" else ""
  }

  /** A number with its sign, and zeros between the two, is read as the number. */
  lemma ReadsNumber(m: seq<char>, before: string, v: int, zeros: string, n: string, after: string)
    requires INT_MIN <= v <= INT_MAX && n == Numeral(Printing.Magnitude(v), 10, 'a')
    requires m == before + (Sign(v) + (zeros + n)) + after
    requires forall k :: 0 <= k < |zeros| ==> zeros[k] == '0'
    requires NulFree(before) && forall k :: 0 <= k < |before| ==> !IsDecimal(before[k]) && !IsSign(before[k])
    requires |after| > 0 && !IsDecimal(after[0]) && NUL in after
    ensures Terminated(m, 0) && Parse(m) == v
  {
    NumeralIsDecimal(Printing.Magnitude(v));
    NumeralValue(Printing.Magnitude(v), 10, 'a');
    LeadingZerosVanish(zeros, n);
    AtoiReads(m, before, Sign(v), zeros + n, after);
    WrapSigned(v, Printing.Magnitude(v), Parse(m));
  }

  /** Leading zeros do not change the value. */
  lemma {:induction false} LeadingZerosVanish(zeros: string, digits: string)
    requires forall k :: 0 <= k < |zeros| ==> zeros[k] == '0'
    ensures Value(zeros + digits, 10, 'a') == Value(digits, 10, 'a')
    decreases |zeros| + |digits|
  {
    if digits != [] {
      var front, last := digits[..|digits| - 1], digits[|digits| - 1];
      assert zeros + digits == (zeros + front) + [last];
      ValueAppend(zeros + front, last, 10, 'a');
      ValueAppend(front, last, 10, 'a');
      assert digits == front + [last];
      LeadingZerosVanish(zeros, front);
    } else {
      assert zeros + digits == zeros;
      if zeros != [] {
        var front := zeros[..|zeros| - 1];
        assert zeros == front + ['0'] && front + [] == front;
        ValueAppend(front, '0', 10, 'a');
        LeadingZerosVanish(front, []);
      }
    }
  }

  /** With zeros in front the sign is put before them, and else into the field. */
  lemma PrintedField(i: Printing.Int32, width: int, pad: Printing.Pad, n: string, t: string)
    requires n == Numeral(Printing.Magnitude(i), 10, 'a') && t == Printing.PrintiText(i, 10, true, width, pad, 'a')
    ensures i < 0 && width != 0 && pad.zero ==> t == "-" + Printing.Field(n, width - 1, pad)
    ensures !(i < 0 && width != 0 && pad.zero) ==> t == Printing.Field(Sign(i) + n, width, pad)
  {
    assert i >= 0 ==> Sign(i) + n == n;
  }

  /** A field, taken apart into its text and what was padded. */
  lemma FieldSplits(text: string, width: int, pad: Printing.Pad, t: string) returns (front: string, behind: string)
    requires t == Printing.Field(text, width, pad)
    ensures t == front + text + behind
    ensures pad.right ==> front == []
    ensures !pad.right ==> behind == []
    ensures forall k :: 0 <= k < |front| ==> front[k] == if pad.zero then '0' else ' '
    ensures forall k :: 0 <= k < |behind| ==> behind[k] == if pad.zero then '0' else ' '
    ensures width <= |text| ==> front == [] && behind == []
  {
    Printing.FieldShape(text, width, pad);
    if pad.right {
      front, behind := [], t[|text|..];
      assert t == t[..|text|] + behind;
    } else {
      front, behind := t[..|t| - |text|], [];
      assert t == front + t[|t| - |text|..];
    }
  }

  /** How a number printed in a field looks: blanks, a sign, zeros, the numeral, blanks. */
  lemma PrintedLayout(i: Printing.Int32, width: int, pad: Printing.Pad, n: string, t: string)
    returns (before: string, zeros: string, behind: string)
    requires !(pad.right && pad.zero)
    requires n == Numeral(Printing.Magnitude(i), 10, 'a') && t == Printing.PrintiText(i, 10, true, width, pad, 'a')
    ensures t == before + (Sign(i) + (zeros + n)) + behind
    ensures forall k :: 0 <= k < |before| ==> before[k] == ' '
    ensures forall k :: 0 <= k < |zeros| ==> zeros[k] == '0'
    ensures forall k :: 0 <= k < |behind| ==> behind[k] == ' '
  {
    PrintedField(i, width, pad, n, t);
    if i < 0 && width != 0 && pad.zero {
      before := [];
      zeros, behind := FieldSplits(n, width - 1, pad, Printing.Field(n, width - 1, pad));
      SignInFront("-", zeros, n);
    } else {
      var front;
      front, behind := FieldSplits(Sign(i) + n, width, pad, t);
      if pad.zero {
        before, zeros := [], front;
        assert front + (Sign(i) + n) == Sign(i) + (front + n);
      } else {
        before, zeros := front, [];
        assert Sign(i) + n == Sign(i) + (zeros + n);
      }
    }
  }

  lemma SignInFront(sign: string, zeros: string, n: string)
    ensures sign + (zeros + n + []) == [] + (sign + (zeros + n)) + []
  {
  }

  /** k_atoi reads back what printi prints in a field of any width, unless zeros are padded behind the number. */
  lemma AtoiInvertsFields(i: Printing.Int32, width: int, pad: Printing.Pad, m: seq<char>)
    requires !(pad.right && pad.zero)
    requires m == Printing.PrintiText(i, 10, true, width, pad, 'a') + [NUL]
    ensures Terminated(m, 0) && Parse(m) == i
  {
    var n := Numeral(Printing.Magnitude(i), 10, 'a');
    var before, zeros, behind := PrintedLayout(i, width, pad, n, Printing.PrintiText(i, 10, true, width, pad, 'a'));
    assert m == before + (Sign(i) + (zeros + n)) + (behind + [NUL]);
    ReadsNumber(m, before, i, zeros, n, behind + [NUL]);
  }

  lemma WrapSigned(v: int, size: nat, parsed: int)
    requires INT_MIN <= v <= INT_MAX && size == if v < 0 then -v else v
    requires parsed == if v < 0 then Wrap32(-Wrap32(size)) else Wrap32(size)
    ensures parsed == v
  {
  }

  lemma SignedLayout(m: seq<char>, before: string, sign: string, digits: string, after: string)
    requires m == before + (sign + digits) + after && NulFree(sign)
    requires AllDigits(digits) && NulFree(before) && NUL in after
    ensures var first, e := |before| + |sign|, |before| + |sign| + |digits|;
      && Terminated(m, 0) && StrEnd(m, 0) >= e
      && (forall k :: 0 <= k < |before| ==> m[k] == before[k])
      && (sign != "" ==> m[|before|] == sign[0])
      && m[first..e] == digits && AllDecimal(m, first, e) && m[e] == after[0]
  {
    var first, e := |before| + |sign|, |before| + |sign| + |digits|;
    Layout(before, sign + digits, after);
    assert m[first..e] == digits;
    forall k | first <= k < e ensures IsDecimal(m[k]) {
      assert m[k] == m[first..e][k - first];
    }
  }

  /** Where the pieces of a text are, and that it ends no earlier than its last piece. */
  lemma Layout(before: string, t: string, after: string)
    requires NulFree(before) && NulFree(t) && NUL in after
    ensures var m := before + t + after;
      && Terminated(m, 0) && StrEnd(m, 0) >= |before| + |t|
      && (forall k :: 0 <= k < |before| ==> m[k] == before[k])
      && (forall k :: 0 <= k < |t| ==> m[|before| + k] == t[k])
      && m[|before| + |t|] == after[0]
  {
    var m := before + t + after;
    var z :| 0 <= z < |after| && after[z] == NUL;
    assert m[|before| + |t| + z] == NUL;
    TerminatedBy(m, |before| + |t| + z);
    assert forall k :: 0 <= k < |before| + |t| ==> m[k] != NUL;
  }

  /** Some NUL below z, and none before e, puts the end of the string between them. */
  lemma TerminatedBy(m: seq<char>, z: nat)
    requires z < |m| && m[z] == NUL
    ensures Terminated(m, 0) && StrEnd(m, 0) <= z
  {
  }

  /** Reading any printed value above INT_MIN, the register never overflows. */
  lemma {:induction false} NeverOverflows(s: string)
    requires AllDecimal(s, 0, |s|) && Value(s, 10, 'a') <= INT_MAX
    ensures 0 <= Value(s, 10, 'a')
    ensures forall k :: 0 <= k <= |s| ==> 0 <= Value(s[..k], 10, 'a') <= Value(s, 10, 'a')
  {
    assert s[..|s|] == s;
    if s != [] {
      var t := s[..|s| - 1];
      NonNegative(t);
      NeverOverflows(t);
      forall k | 0 <= k <= |s| ensures 0 <= Value(s[..k], 10, 'a') <= Value(s, 10, 'a') {
        assert k < |s| ==> s[..k] == t[..k];
      }
    }
  }

  lemma {:induction false} NonNegative(s: string)
    requires AllDecimal(s, 0, |s|)
    ensures Value(s, 10, 'a') >= 0
  {
    if s != [] {
      NonNegative(s[..|s| - 1]);
    }
  }
}
