/** Decimal numerals: what JavaScript's `String(n)` writes for a natural number and `Number(s)` reads back. */
module Decimal {

  predicate IsDigit(c: char) {
    '0' <= c <= '9'
  }

  predicate AllDigits(s: string) {
    forall i :: 0 <= i < |s| ==> IsDigit(s[i])
  }

  function DigitOf(d: nat): (c: char)
    requires d < 10
    ensures IsDigit(c)
  {
    '0' + d as char
  }

  function ValueOf(c: char): nat
    requires IsDigit(c)
  {
    (c - '0') as nat
  }

  function Print(n: nat): string {
    if n < 10 then [DigitOf(n)] else Print(n / 10) + [DigitOf(n % 10)]
  }

  function Value(s: string): nat
    requires AllDigits(s)
  {
    if s == [] then 0 else 10 * Value(s[..|s| - 1]) + ValueOf(s[|s| - 1])
  }

  /** No zero in front, except in "0" itself. */
  predicate Canonical(s: string) {
    s != [] && AllDigits(s) && (s[0] == '0' ==> |s| == 1)
  }

  /** Reading a printed number gives it back, and printing never writes a zero in front. */
  lemma {:induction false} ValueOfPrint(n: nat)
    ensures Canonical(Print(n))
    ensures Value(Print(n)) == n
    ensures n > 0 ==> Print(n)[0] != '0'
  {
    if n >= 10 {
      ValueOfPrint(n / 10);
      assert Print(n)[..|Print(n)| - 1] == Print(n / 10);
    }
  }

  /** Printing the value of a canonical numeral gives it back. */
  lemma {:induction false} PrintOfValue(s: string)
    requires Canonical(s)
    ensures Print(Value(s)) == s
    ensures |s| > 1 ==> Value(s) >= 10
    decreases |s|
  {
    if |s| > 1 {
      var front := s[..|s| - 1];
      assert front[0] == s[0];
      PrintOfValue(front);
      if |front| == 1 {
        assert Value(front) == ValueOf(s[0]);
      }
      assert s == front + [s[|s| - 1]];
      assert Value(s) / 10 == Value(front) && Value(s) % 10 == ValueOf(s[|s| - 1]);
    }
  }

  lemma PrintInjective(m: nat, n: nat)
    ensures Print(m) == Print(n) <==> m == n
  {
    ValueOfPrint(m);
    ValueOfPrint(n);
  }

  function Zeros(k: nat): (s: string)
    ensures |s| == k && AllDigits(s) && forall i :: 0 <= i < k ==> s[i] == '0'
  {
    seq(k, i => '0')
  }

  /** JavaScript's `padStart` with zeros. */
  function PadStart(s: string, length: nat): string {
    if |s| >= length then s else Zeros(length - |s|) + s
  }

  lemma {:induction false} LeadingZeros(k: nat, s: string)
    requires AllDigits(s)
    ensures AllDigits(Zeros(k) + s) && Value(Zeros(k) + s) == Value(s)
    decreases k + |s|
  {
    if s != [] {
      LeadingZeros(k, s[..|s| - 1]);
      assert (Zeros(k) + s)[..k + |s| - 1] == Zeros(k) + s[..|s| - 1];
    } else if k > 0 {
      LeadingZeros(k - 1, s);
      assert (Zeros(k) + s)[..k - 1] == Zeros(k - 1) + s;
    }
  }

  lemma ValueOfPadded(n: nat, length: nat)
    ensures AllDigits(PadStart(Print(n), length))
    ensures PadStart(Print(n), length) != []
    ensures Value(PadStart(Print(n), length)) == n
  {
    ValueOfPrint(n);
    if |Print(n)| < length {
      LeadingZeros(length - |Print(n)|, Print(n));
    }
  }

  lemma PaddedFrom(zeros: nat, digits: string, length: nat)
    requires Canonical(digits) && 0 < length
    ensures var s := Zeros(zeros) + digits;
            PadStart(digits, length) == s <==> |s| == length || (|s| > length && s[0] != '0')
  {
    var s := Zeros(zeros) + digits;
    if zeros == 0 {
      assert s == digits;
    } else {
      assert s[0] == '0';
    }
    assert |PadStart(digits, length)| == if |digits| >= length then |digits| else length;
  }

  /** A numeral is the zero-padded print of its value exactly when it is that long, or longer without a zero
    in front. */
  lemma PaddedExactly(s: string, length: nat)
    requires AllDigits(s) && 0 < length
    ensures PadStart(Print(Value(s)), length) == s <==> |s| == length || (|s| > length && s[0] != '0')
  {
    hide PadStart, Print, Value;
    var k := LeadingZeroCount(s);
    if s == [] {
      PaddedIsNotEmpty(Value(s), length);
    } else {
      var zeros := if k == |s| then k - 1 else k;
      StrippedZeros(s, zeros);
      assert s == Zeros(zeros) + s[zeros..];
      PrintOfValue(s[zeros..]);
      PaddedFrom(zeros, s[zeros..], length);
    }
  }

  lemma PaddedIsNotEmpty(n: nat, length: nat)
    ensures PadStart(Print(n), length) != []
  {
    ValueOfPrint(n);
  }

  function LeadingZeroCount(s: string): (k: nat)
    ensures k <= |s| && (forall i :: 0 <= i < k ==> s[i] == '0')
    ensures k < |s| ==> s[k] != '0'
  {
    if s == [] || s[0] != '0' then 0 else 1 + LeadingZeroCount(s[1..])
  }

  lemma StrippedZeros(s: string, k: nat)
    requires AllDigits(s) && k <= |s| && forall i :: 0 <= i < k ==> s[i] == '0'
    ensures AllDigits(s[k..]) && Value(s) == Value(s[k..])
  {
    assert s == Zeros(k) + s[k..];
    LeadingZeros(k, s[k..]);
  }

  lemma NumeralIsDigits(zeros: nat, n: nat)
    ensures AllDigits(Zeros(zeros) + Print(n)) && Zeros(zeros) + Print(n) != []
    ensures Value(Zeros(zeros) + Print(n)) == n
  {
    ValueOfPrint(n);
    LeadingZeros(zeros, Print(n));
  }

  /** The numerals of a number are its print with any zeros in front. */
  lemma NumeralExactly(s: string, n: nat)
    requires AllDigits(s) && s != []
    ensures Value(s) == n <==> exists zeros: nat :: s == Zeros(zeros) + Print(n)
  {
    hide Print, Value;
    var k := LeadingZeroCount(s);
    var zeros := if k == |s| then k - 1 else k;
    StrippedZeros(s, zeros);
    assert s == Zeros(zeros) + s[zeros..];
    PrintOfValue(s[zeros..]);
    if z: nat :| s == Zeros(z) + Print(n) {
      NumeralIsDigits(z, n);
    }
  }
}
