/** Decimal digit strings and the numbers they read as. */
module Decimal {
  import opened Ctype
  import opened WordBits

  function Pow10(n: nat): (r: nat)
    ensures r > 0
  {
    if n == 0 then 1 else 10 * Pow10(n - 1)
  }

  function DigitChar(d: nat): char
    requires d < 10
  {
    '0' + d as char
  }

  predicate AllDigits(s: string) {
    forall i :: 0 <= i < |s| ==> IsDigit(s[i])
  }

  /** What a reader makes of a digit string. */
  function Value(s: string): nat
    requires AllDigits(s)
  {
    if s == [] then 0 else 10 * Value(s[..|s| - 1]) + (s[|s| - 1] as int - '0' as int)
  }

  /** The k lowest digits of n, highest first. */
  function Digits(n: nat, k: nat): (s: string)
    ensures |s| == k && AllDigits(s)
  {
    if k == 0 then [] else Digits(n / 10, k - 1) + [DigitChar(n % 10)]
  }

  /** How many digits n takes without leading zeros; 0 takes one. */
  function Width(n: nat): (k: nat)
    ensures k >= 1
  {
    if n < 10 then 1 else 1 + Width(n / 10)
  }

  function Shortest(n: nat): string { Digits(n, Width(n)) }

  lemma ValueSnoc(s: string, c: char)
    requires AllDigits(s) && IsDigit(c)
    ensures AllDigits(s + [c]) && Value(s + [c]) == 10 * Value(s) + (c as int - '0' as int)
  {
    assert (s + [c])[..|s|] == s;
  }

  lemma {:induction false} WidthBounds(n: nat)
    ensures n < Pow10(Width(n))
    ensures n > 0 ==> Pow10(Width(n) - 1) <= n
  {
    if n >= 10 { WidthBounds(n / 10); }
  }

  lemma {:induction false} WidthIsLeast(n: nat, k: nat)
    requires k >= 1 && n < Pow10(k)
    ensures Width(n) <= k
  {
    if n >= 10 { WidthIsLeast(n / 10, k - 1); }
  }

  lemma {:induction false} DigitsReadBack(n: nat, k: nat)
    requires n < Pow10(k)
    ensures Value(Digits(n, k)) == n
  {
    if k > 0 {
      DigitsReadBack(n / 10, k - 1);
      ValueSnoc(Digits(n / 10, k - 1), DigitChar(n % 10));
    }
  }

  lemma ShortestReadsBack(n: nat)
    ensures Value(Shortest(n)) == n
  {
    WidthBounds(n);
    DigitsReadBack(n, Width(n));
  }

  /** A digit string is fixed by its length and its value. */
  lemma {:induction false} OnlyOneSpelling(s: string)
    requires AllDigits(s)
    ensures Value(s) < Pow10(|s|) && s == Digits(Value(s), |s|)
    decreases |s|
  {
    if s != [] {
      var front := s[..|s| - 1];
      OnlyOneSpelling(front);
      assert s == front + [s[|s| - 1]];
    }
  }

  lemma MulShift(v: nat, p: nat)
    ensures (10 * p) * v == 10 * (p * v)
  {}

  lemma {:induction false} ValueConcat(s: string, t: string)
    requires AllDigits(s) && AllDigits(t)
    ensures AllDigits(s + t) && Value(s + t) == Pow10(|t|) * Value(s) + Value(t)
    decreases |t|
  {
    if t == [] {
      assert s + t == s;
    } else {
      var front := t[..|t| - 1];
      ValueConcat(s, front);
      ValueSnoc(s + front, t[|t| - 1]);
      assert s + t == s + front + [t[|t| - 1]];
      MulShift(Value(s), Pow10(|front|));
    }
  }

  /** n without its k lowest digits, and the number those digits make. */
  function High(n: nat, k: nat): nat { if k == 0 then n else High(n / 10, k - 1) }

  function Low(n: nat, k: nat): nat { if k == 0 then 0 else 10 * Low(n / 10, k - 1) + n % 10 }

  lemma {:induction false} HighAndLow(n: nat, k: nat)
    ensures n == Pow10(k) * High(n, k) + Low(n, k) && Low(n, k) < Pow10(k) && High(n, k) <= n
  {
    if k > 0 {
      HighAndLow(n / 10, k - 1);
      MulShift(High(n, k), Pow10(k - 1));
    }
  }

  /** Dividing by a power of ten splits the digits. */
  lemma DivisionSplits(n: nat, k: nat)
    ensures n / Pow10(k) == High(n, k) && n % Pow10(k) == Low(n, k)
  {
    HighAndLow(n, k);
    ModUnique(n, Pow10(k), High(n, k), Low(n, k));
  }

  lemma Joined(s: string, t: string, n: nat, k: nat)
    requires AllDigits(s) && AllDigits(t) && Value(s) == High(n, k) && Value(t) == Low(n, k) && |t| == k
    ensures Value(s + t) == n
  {
    ValueConcat(s, t);
    HighAndLow(n, k);
  }

  /** The two halves of a number, written one after the other, read as the number. */
  lemma SplitReadsBack(n: nat, k: nat)
    ensures Value(Shortest(High(n, k)) + Digits(Low(n, k), k)) == n
  {
    ShortestReadsBack(High(n, k));
    LowIsSmall(n, k);
    DigitsReadBack(Low(n, k), k);
    Joined(Shortest(High(n, k)), Digits(Low(n, k), k), n, k);
  }

  lemma LowIsSmall(n: nat, k: nat)
    ensures Low(n, k) < Pow10(k)
  {
    HighAndLow(n, k);
  }

  lemma NoLeadingZero(n: nat)
    requires n > 0
    ensures Shortest(n)[0] != '0'
  {
    DigitAt(n, Width(n), 0);
    TopIsNonzero(n);
  }

  /** Taking the top digit off the k + 1 lowest. */
  lemma {:induction false} LowSplits(n: nat, k: nat)
    ensures Low(n, k + 1) == Pow10(k) * (High(n, k) % 10) + Low(n, k)
  {
    if k > 0 {
      LowSplits(n / 10, k - 1);
      MulShift(High(n, k) % 10, Pow10(k - 1));
    }
  }

  lemma TopDigit(n: nat, k: nat)
    ensures Low(n, k + 1) / Pow10(k) == High(n, k) % 10 && Low(n, k + 1) % Pow10(k) == Low(n, k)
  {
    LowSplits(n, k);
    HighAndLow(n, k);
    ModUnique(Low(n, k + 1), Pow10(k), High(n, k) % 10, Low(n, k));
  }

  /** The digit k places from the right. */
  lemma {:induction false} DigitAt(n: nat, k: nat, i: nat)
    requires i < k
    ensures Digits(n, k)[i] == DigitChar(High(n, k - 1 - i) % 10)
  {
    if i < k - 1 { DigitAt(n / 10, k - 1, i); }
  }

  lemma {:induction false} TopIsNonzero(n: nat)
    requires n > 0
    ensures 0 < High(n, Width(n) - 1) < 10
  {
    if n >= 10 { TopIsNonzero(n / 10); }
  }

  lemma {:induction false} Pow10Grows(m: nat, n: nat)
    requires m <= n
    ensures Pow10(m) <= Pow10(n)
    decreases n
  {
    if m < n { Pow10Grows(m, n - 1); }
  }

  lemma FitsIn64Bits(k: nat)
    requires k <= 19
    ensures Pow10(k) < 0x1_0000_0000_0000_0000
  {
    Pow10Grows(k, 19);
    assert Pow10(5) == 100000;
    assert Pow10(10) == 10000000000;
    assert Pow10(15) == 1000000000000000;
    assert Pow10(19) == 10000000000000000000;
  }
}
