/**
 Positional numerals as text, independent of any routine that prints or reads them.
 */
module Numerals {

  const INT_MAX := 0x7fff_ffff
  const INT_MIN := -0x8000_0000

  predicate Base(b: int) {
    2 <= b <= 16
  }

  /** The character for a digit; `letter` is the one used for ten. */
  function DigitChar(d: int, letter: char): char
    requires 0 <= d < 16 && 'A' <= letter <= 'a'
  {
    if d < 10 then ('0' as int + d) as char else (letter as int + d - 10) as char
  }

  function DigitValue(c: char, letter: char): int {
    if c <= '9' then c as int - '0' as int else c as int - letter as int + 10
  }

  lemma DivMod(n: nat, b: int)
    requires Base(b)
    ensures n == (n / b) * b + n % b && 0 <= n % b < b
    ensures n > 0 ==> 0 <= n / b < n
    ensures n >= b ==> n / b > 0
  {
    var q := n / b;
    assert n == b * q + n % b;
    assert q > 0 ==> b * q >= 2 * q;
  }

  /** The numeral of n: no leading zero, except that zero itself is "0". */
  function Numeral(n: nat, b: int, letter: char): (s: string)
    requires Base(b) && 'A' <= letter <= 'a'
    ensures |s| > 0
    decreases n
  {
    if n < b then [DigitChar(n, letter)]
    else
      DivMod(n, b);
      Numeral(n / b, b, letter) + [DigitChar(n % b, letter)]
  }

  function Value(s: string, b: int, letter: char): int {
    if s == [] then 0 else Value(s[..|s| - 1], b, letter) * b + DigitValue(s[|s| - 1], letter)
  }

  ghost predicate Digits(s: string, b: int, letter: char)
    requires 'A' <= letter <= 'a'
  {
    forall i :: 0 <= i < |s| ==> IsDigit(s[i], b, letter)
  }

  ghost predicate IsDigit(c: char, b: int, letter: char)
    requires 'A' <= letter <= 'a'
  {
    exists d :: 0 <= d < 16 && d < b && c == DigitChar(d, letter)
  }

  lemma DigitRoundTrip(d: int, letter: char)
    requires 0 <= d < 16 && 'A' <= letter <= 'a'
    ensures DigitValue(DigitChar(d, letter), letter) == d
    ensures DigitChar(d, letter) == '0' <==> d == 0
  {
  }

  /** The digits are the usual ones. */
  lemma DigitsAreUsual(d: int)
    requires 0 <= d < 16
    ensures DigitChar(d, 'A') == "0123456789ABCDEF"[d]
    ensures DigitChar(d, 'a') == "0123456789abcdef"[d]
  {
  }

  /** Evaluating a numeral gives the number back. */
  lemma {:induction false} NumeralValue(n: nat, b: int, letter: char)
    requires Base(b) && 'A' <= letter <= 'a'
    ensures Value(Numeral(n, b, letter), b, letter) == n
    decreases n
  {
    var s := Numeral(n, b, letter);
    if n < b {
      DigitRoundTrip(n, letter);
      assert s[..0] == [];
    } else {
      DivMod(n, b);
      var t, c := Numeral(n / b, b, letter), DigitChar(n % b, letter);
      NumeralValue(n / b, b, letter);
      DigitRoundTrip(n % b, letter);
      ValueAppend(t, c, b, letter);
      assert s == t + [c];
    }
  }

  lemma ValueAppend(t: string, c: char, b: int, letter: char)
    ensures Value(t + [c], b, letter) == Value(t, b, letter) * b + DigitValue(c, letter)
  {
    assert (t + [c])[..|t|] == t;
  }

  lemma {:induction false} NumeralHasNoLeadingZero(n: nat, b: int, letter: char)
    requires Base(b) && 'A' <= letter <= 'a'
    ensures n > 0 ==> Numeral(n, b, letter)[0] != '0'
    ensures Digits(Numeral(n, b, letter), b, letter)
    decreases n
  {
    if n >= b {
      DivMod(n, b);
      NumeralHasNoLeadingZero(n / b, b, letter);
      DigitsAppend(Numeral(n / b, b, letter), n % b, b, letter);
    } else {
      DigitRoundTrip(n, letter);
      DigitsAppend([], n, b, letter);
      assert [] + [DigitChar(n, letter)] == [DigitChar(n, letter)];
    }
  }

  lemma DigitsAppend(t: string, d: int, b: int, letter: char)
    requires 'A' <= letter <= 'a' && Digits(t, b, letter) && 0 <= d < 16 && d < b
    ensures Digits(t + [DigitChar(d, letter)], b, letter)
  {
    var s := t + [DigitChar(d, letter)];
    forall i | 0 <= i < |s| ensures IsDigit(s[i], b, letter) {
      assert i < |t| ==> IsDigit(t[i], b, letter);
    }
  }

  /** The numeral is the only text of digits without a leading zero that has the value. */
  lemma {:induction false} NumeralIsUnique(s: string, b: int, letter: char)
    requires Base(b) && 'A' <= letter <= 'a' && Digits(s, b, letter) && |s| > 0
    requires |s| == 1 || s[0] != '0'
    ensures Value(s, b, letter) >= 0 && s == Numeral(Value(s, b, letter), b, letter)
    ensures s[0] != '0' ==> Value(s, b, letter) > 0
    decreases |s|
  {
    var t := s[..|s| - 1];
    var d := LastDigit(s, b, letter);
    DigitRoundTrip(d, letter);
    ValueAppend(t, s[|s| - 1], b, letter);
    assert s == t + [s[|s| - 1]];
    if t != [] {
      NumeralIsUnique(t, b, letter);
      NumeralAppend(Value(t, b, letter), d, b, letter);
    }
  }

  lemma LastDigit(s: string, b: int, letter: char) returns (d: int)
    requires 'A' <= letter <= 'a' && Digits(s, b, letter) && |s| > 0
    ensures 0 <= d < 16 && d < b && s[|s| - 1] == DigitChar(d, letter)
    ensures Digits(s[..|s| - 1], b, letter)
  {
    assert IsDigit(s[|s| - 1], b, letter);
    d :| 0 <= d < 16 && d < b && s[|s| - 1] == DigitChar(d, letter);
  }

  /** Appending a digit to a number that is not zero appends it to the numeral. */
  lemma NumeralAppend(v: int, d: int, b: int, letter: char)
    requires Base(b) && 'A' <= letter <= 'a' && v >= 1 && 0 <= d < b
    ensures v * b + d >= b
    ensures Numeral(v * b + d, b, letter) == Numeral(v, b, letter) + [DigitChar(d, letter)]
  {
    QuotientAndRest(v * b + d, v, d, b);
  }

  lemma QuotientAndRest(n: int, q: int, d: int, b: int)
    requires b > 0 && n == q * b + d && 0 <= d < b
    ensures n / b == q && n % b == d
    ensures q >= 1 ==> n >= b
  {
    var e := n / b - q;
    assert b * e == d - n % b;
    assert e == 0;
    if q >= 1 {
      assert q * b >= b;
    }
  }

  function Pow(b: int, k: nat): int {
    if k == 0 then 1 else b * Pow(b, k - 1)
  }

  lemma {:induction false} PowPositive(b: int, k: nat)
    requires b >= 1
    ensures Pow(b, k) >= 1
  {
    if k > 0 {
      PowPositive(b, k - 1);
      assert b * Pow(b, k - 1) >= Pow(b, k - 1);
    }
  }

  /** A number below b^k has at most k digits. */
  lemma {:induction false} NumeralLength(n: nat, b: int, letter: char, k: nat)
    requires Base(b) && 'A' <= letter <= 'a' && k >= 1 && n < Pow(b, k)
    ensures |Numeral(n, b, letter)| <= k
    decreases k
  {
    if n >= b {
      assert Pow(b, 1) == b * Pow(b, 0) == b;
      DivMod(n, b);
      QuotientBelow(n, b, Pow(b, k - 1));
      NumeralLength(n / b, b, letter, k - 1);
    }
  }

  /** A number of at least b^k has more than k digits. */
  lemma {:induction false} NumeralIsLong(n: nat, b: int, letter: char, k: nat)
    requires Base(b) && 'A' <= letter <= 'a' && n >= Pow(b, k)
    ensures |Numeral(n, b, letter)| > k
    decreases k
  {
    if k > 0 {
      PowPositive(b, k - 1);
      DivMod(n, b);
      QuotientAtLeast(n, b, Pow(b, k - 1));
      NumeralIsLong(n / b, b, letter, k - 1);
    }
  }

  lemma QuotientAtLeast(n: nat, b: int, m: int)
    requires b > 0 && m >= 1 && n >= b * m
    ensures n / b >= m && n >= b
  {
    var q := n / b;
    assert n == b * q + n % b;
    Cancel(b, m, q + 1);
    MulMonotone(b, b, 1, m);
  }

  lemma Cancel(b: int, x: int, y: int)
    requires b > 0 && b * x < b * y
    ensures x < y
  {
    assert b * (y - x) > 0;
  }

  lemma MulMonotone(a: int, b: int, x: int, y: int)
    requires 0 <= a <= b && 0 <= x <= y
    ensures a * x <= b * y
  {
    assert a * (y - x) >= 0;
    assert (b - a) * y >= 0;
  }

  lemma {:induction false} PowMonotone(a: int, b: int, k: nat)
    requires 1 <= a <= b
    ensures Pow(a, k) <= Pow(b, k)
  {
    if k > 0 {
      PowMonotone(a, b, k - 1);
      PowPositive(a, k - 1);
      MulMonotone(a, b, Pow(a, k - 1), Pow(b, k - 1));
    }
  }

  lemma QuotientBelow(n: nat, b: int, m: int)
    requires b > 0 && n < b * m
    ensures n / b < m
  {
    var q := n / b;
    assert n == b * q + n % b;
    assert b * (q - m) < 0;
  }

  // ------------------------------------------------------------------ signed decimal

  /** What a C programmer expects to see for a signed number in base ten. */
  function IntText(v: int): string {
    if v < 0 then "-" + Numeral(-v, 10, 'a') else Numeral(v, 10, 'a')
  }
}
