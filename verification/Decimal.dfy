/** Decimal numbers in text: `String(n)`, `padStart`, and reading them back. */
module Decimal {

  predicate IsDigit(c: char) { '0' <= c <= '9' }

  ghost predicate AllDigits(s: string) { forall c <- s :: IsDigit(c) }

  function DigitValue(c: char): (v: nat)
    requires IsDigit(c)
    ensures v < 10
  {
    (c - '0') as int
  }

  function DigitChar(v: nat): (c: char)
    requires v < 10
    ensures IsDigit(c) && DigitValue(c) == v
  {
    '0' + v as char
  }

  /** `String(n)`. */
  function Dec(n: nat): (s: string)
    ensures AllDigits(s) && |s| >= 1
  {
    if n < 10 then [DigitChar(n)] else Dec(n / 10) + [DigitChar(n % 10)]
  }

  /** The number a digit string denotes; leading zeros are harmless. */
  function Value(s: string): nat
    requires AllDigits(s)
  {
    if s == [] then 0 else 10 * Value(s[..|s| - 1]) + DigitValue(s[|s| - 1])
  }

  lemma {:induction false} ValueDec(n: nat)
    ensures Value(Dec(n)) == n
  {
    if n < 10 {
      assert Dec(n)[..0] == [];
    } else {
      ValueDec(n / 10);
      assert Dec(n)[..|Dec(n)| - 1] == Dec(n / 10);
    }
  }

  function Zeros(n: nat): (s: string)
    ensures |s| == n && AllDigits(s)
  {
    if n == 0 then [] else ['0'] + Zeros(n - 1)
  }

  lemma {:induction false} LeadingZeros(n: nat, s: string)
    requires AllDigits(s)
    ensures AllDigits(Zeros(n) + s) && Value(Zeros(n) + s) == Value(s)
  {
    if s == [] {
      assert Zeros(n) + s == Zeros(n);
      ValueZeros(n);
    } else {
      assert (Zeros(n) + s)[..n + |s| - 1] == Zeros(n) + s[..|s| - 1];
      LeadingZeros(n, s[..|s| - 1]);
    }
  }

  lemma {:induction false} ValueZeros(n: nat)
    ensures Value(Zeros(n)) == 0
  {
    if n > 0 {
      ZerosEnd(n);
      ValueZeros(n - 1);
    }
  }

  lemma {:induction false} ZerosEnd(n: nat)
    requires n > 0
    ensures Zeros(n) == Zeros(n - 1) + ['0']
  {
    if n > 1 { ZerosEnd(n - 1); }
  }

  /** `s.padStart(width, "0")`. */
  function PadStart(s: string, width: nat): (r: string)
    requires AllDigits(s)
    ensures AllDigits(r) && |r| == if |s| < width then width else |s|
  {
    if |s| < width then Zeros(width - |s|) + s else s
  }

  lemma ValuePadded(n: nat, width: nat)
    ensures Value(PadStart(Dec(n), width)) == n
  {
    ValueDec(n);
    if |Dec(n)| < width { LeadingZeros(width - |Dec(n)|, Dec(n)); }
  }

  function PowerOfTen(n: nat): (p: nat)
    ensures p >= 1
  {
    if n == 0 then 1 else 10 * PowerOfTen(n - 1)
  }

  /** A number is at most `width` digits long exactly when it is below ten to the `width`. */
  lemma {:induction false} DecLength(n: nat, width: nat)
    requires width >= 1
    ensures |Dec(n)| <= width <==> n < PowerOfTen(width)
  {
    if width == 1 {
      assert PowerOfTen(1) == 10 * PowerOfTen(0);
      if n >= 10 { assert |Dec(n / 10)| >= 1; }
    } else if n >= 10 {
      DecLength(n / 10, width - 1);
    } else {
      assert PowerOfTen(width) == 10 * PowerOfTen(width - 1);
    }
  }

  /** The longest run of digits at a place. */
  function DigitsAt(s: string, at: nat): (r: string)
    requires at <= |s|
    ensures AllDigits(r) && at + |r| <= |s|
    decreases |s| - at
  {
    if at < |s| && IsDigit(s[at]) then [s[at]] + DigitsAt(s, at + 1) else []
  }

  /** A digit string followed by something else is exactly the run found there. */
  lemma {:induction false} DigitsFound(s: string, at: nat, ds: string)
    requires at + |ds| < |s| && AllDigits(ds) && s[at..at + |ds|] == ds && !IsDigit(s[at + |ds|])
    ensures DigitsAt(s, at) == ds
    decreases |ds|
  {
    if ds != [] {
      assert s[at] == s[at..at + |ds|][0] == ds[0];
      assert s[at + 1..at + |ds|] == s[at..at + |ds|][1..];
      DigitsFound(s, at + 1, ds[1..]);
    } else {
      assert s[at..at + 0] == [];
    }
  }

  /** The longest run of digits that ends a text. */
  function TrailingDigits(s: string): (r: string)
    ensures AllDigits(r) && |r| <= |s|
  {
    if s != [] && IsDigit(s[|s| - 1]) then TrailingDigits(s[..|s| - 1]) + [s[|s| - 1]] else []
  }

  lemma {:induction false} TrailingFound(head: string, ds: string)
    requires head != [] && !IsDigit(head[|head| - 1]) && AllDigits(ds)
    ensures TrailingDigits(head + ds) == ds
    decreases |ds|
  {
    var n := |ds|;
    if n > 0 {
      assert (head + ds)[..|head + ds| - 1] == head + ds[..n - 1];
      TrailingFound(head, ds[..n - 1]);
    } else {
      assert head + ds == head;
    }
  }
}
