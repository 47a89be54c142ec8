/** Decimal printing and parsing, with zero padding on the left. */
module Numerals {

  predicate IsDigit(c: char) { '0' <= c <= '9' }

  ghost predicate AllDigits(s: string) {
    forall i | 0 <= i < |s| :: IsDigit(s[i])
  }

  function Digit(d: nat): (c: char)
    requires d < 10
    ensures IsDigit(c) && DigitValue(c) == d
  {
    ('0' as int + d) as char
  }

  function DigitValue(c: char): nat
    requires IsDigit(c)
  {
    c as int - '0' as int
  }

  // Without leading zeros.
  function Print(n: nat): (s: string)
    ensures s != [] && AllDigits(s)
  {
    if n < 10 then [Digit(n)] else Print(n / 10) + [Digit(n % 10)]
  }

  function Parse(s: string): nat
    requires AllDigits(s)
  {
    if s == [] then 0 else 10 * Parse(s[..|s| - 1]) + DigitValue(s[|s| - 1])
  }

  function Zeros(n: nat): (z: string)
    ensures |z| == n && AllDigits(z)
  {
    seq(n, _ => '0')
  }

  function PadTo(s: string, width: nat): string {
    if |s| < width then Zeros(width - |s|) + s else s
  }

  lemma {:induction false} ParseOfPrint(n: nat)
    ensures Parse(Print(n)) == n
  {
    var s := Print(n);
    if n < 10 {
      assert s[..0] == [];
    } else {
      ParseOfPrint(n / 10);
      assert s[..|s| - 1] == Print(n / 10);
    }
  }

  lemma {:induction false} ParseOfPadded(zeros: nat, s: string)
    requires AllDigits(s)
    ensures AllDigits(Zeros(zeros) + s) && Parse(Zeros(zeros) + s) == Parse(s)
  {
    var t := Zeros(zeros) + s;
    if s != [] {
      assert t[..|t| - 1] == Zeros(zeros) + s[..|s| - 1];
      ParseOfPadded(zeros, s[..|s| - 1]);
    } else if zeros > 0 {
      assert t[..|t| - 1] == Zeros(zeros - 1) + [];
      ParseOfPadded(zeros - 1, []);
    }
  }

  // Padding keeps the number, so padded printing is injective.
  lemma ParseOfPaddedPrint(n: nat, width: nat)
    ensures AllDigits(PadTo(Print(n), width)) && Parse(PadTo(Print(n), width)) == n
  {
    var s := Print(n);
    ParseOfPrint(n);
    ParseOfPadded(if |s| < width then width - |s| else 0, s);
  }

  // Only zero prints with a leading zero.
  lemma {:induction false} LeadingDigit(n: nat)
    ensures Print(n)[0] == '0' <==> n == 0
    ensures n == 0 ==> |Print(n)| == 1
  {
    if n >= 10 {
      LeadingDigit(n / 10);
    }
  }

  lemma {:induction false} PrintGrows(m: nat, n: nat)
    requires m <= n
    ensures |Print(m)| <= |Print(n)|
  {
    if m >= 10 {
      PrintGrows(m / 10, n / 10);
    }
  }

  // How many decimal digits a number has.
  ghost function DigitCount(n: nat): (k: nat)
    ensures k >= 1
  {
    if n < 10 then 1 else 1 + DigitCount(n / 10)
  }

  lemma {:induction false} PrintLength(n: nat)
    ensures |Print(n)| == DigitCount(n)
  {
    if n >= 10 {
      PrintLength(n / 10);
    }
  }

  // A padded number has its own digits, or as many as it is padded to if those are more.
  lemma PaddedLength(n: nat, width: nat)
    ensures |PadTo(Print(n), width)| == if width > DigitCount(n) then width else DigitCount(n)
  {
    PrintLength(n);
  }
}
