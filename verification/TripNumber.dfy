/** `getTripNumber`, `getTripInvoiceNumber` and `setTripNumber`. */
module TripNumber {
  import opened Decimal

  const WIDTH := 7

  function GetTripNumber(tripNo: nat): string {
    "TR-" + PadStart(Print(tripNo), WIDTH)
  }

  function GetTripInvoiceNumber(tripNo: nat): string {
    "RIDE-TR-" + PadStart(Print(tripNo), WIDTH)
  }

  /** A filter read as a trip number, one whose tail is not a plain numeral (what `Number` makes of it is not
    modelled), or a text passed on unchanged. */
  datatype TripFilter = Trip(number: nat) | OddTail(tail: string) | Text(text: string)

  function Substr(s: string, from: nat, length: nat): string {
    if from >= |s| then "" else if from + length <= |s| then s[from..from + length] else s[from..]
  }

  predicate HasTripPrefix(tripNo: string) {
    Substr(tripNo, 0, 3) == "TR-" || Substr(tripNo, 0, 3) == "tr-"
  }

  function SetTripNumber(tripNo: string): TripFilter {
    if HasTripPrefix(tripNo) then
      var tail := tripNo[3..];
      if AllDigits(tail) then Trip(Value(tail)) else OddTail(tail)
    else
      Text(tripNo)
  }

  /** Every trip number, also one of more than seven digits, reads back as itself. */
  lemma TripNumberRoundTrip(n: nat)
    ensures SetTripNumber(GetTripNumber(n)) == Trip(n)
  {
    ValueOfPadded(n, WIDTH);
    assert GetTripNumber(n)[3..] == PadStart(Print(n), WIDTH);
  }

  lemma TripNumbersDiffer(m: nat, n: nat)
    ensures GetTripNumber(m) == GetTripNumber(n) <==> m == n
  {
    TripNumberRoundTrip(m);
    TripNumberRoundTrip(n);
  }

  /** A capital prefix, then seven digits, or more without a zero in front. */
  predicate LooksPrinted(s: string) {
    && |s| >= 10 && s[..3] == "TR-" && AllDigits(s[3..])
    && (|s| == 10 || s[3] != '0')
  }

  /** Of all texts, exactly those that look printed are some trip's number; no other comes back from being read
    and printed again. */
  lemma PrintedTripNumbersExactly(s: string)
    ensures LooksPrinted(s) <==> exists n: nat :: GetTripNumber(n) == s
    ensures LooksPrinted(s) <==> SetTripNumber(s).Trip? && GetTripNumber(SetTripNumber(s).number) == s
  {
    if SetTripNumber(s).Trip? {
      var tail := s[3..];
      PaddedExactly(tail, WIDTH);
      var printed := GetTripNumber(Value(tail));
      assert printed[3..] == PadStart(Print(Value(tail)), WIDTH);
      assert s == s[..3] + tail;
      assert printed == "TR-" + printed[3..];
      assert s[..3] == "TR-" <==> s[0] == 'T' && s[1] == 'R' && s[2] == '-';
    }
    if n: nat :| GetTripNumber(n) == s {
      TripNumberRoundTrip(n);
    }
  }

  /** What is read from a text with either prefix: a number, if the rest is its numeral with any zeros in front,
    or nothing at all, which reads as zero; every other text is no trip number. */
  lemma ReadExactly(s: string, n: nat)
    ensures SetTripNumber(s) == Trip(n) <==>
            && |s| >= 3 && (s[..3] == "TR-" || s[..3] == "tr-")
            && ((n == 0 && |s| == 3) || exists zeros: nat :: s[3..] == Zeros(zeros) + Print(n))
    ensures SetTripNumber(s) == Text(s) <==> |s| < 3 || (s[..3] != "TR-" && s[..3] != "tr-")
  {
    if |s| >= 3 && AllDigits(s[3..]) && |s| > 3 {
      NumeralExactly(s[3..], n);
    }
    if zeros: nat :| |s| >= 3 && s[3..] == Zeros(zeros) + Print(n) {
      NumeralIsDigits(zeros, n);
    }
  }

  lemma InvoiceNumbersDiffer(m: nat, n: nat)
    ensures GetTripInvoiceNumber(m) == GetTripInvoiceNumber(n) <==> m == n
    ensures GetTripInvoiceNumber(n) == "RIDE-" + GetTripNumber(n)
  {
    TripNumbersDiffer(m, n);
    assert GetTripInvoiceNumber(m) == "RIDE-" + GetTripNumber(m);
    assert GetTripInvoiceNumber(n) == "RIDE-" + GetTripNumber(n);
    assert ("RIDE-" + GetTripNumber(m))[5..] == GetTripNumber(m);
    assert ("RIDE-" + GetTripNumber(n))[5..] == GetTripNumber(n);
  }

  /** An invoice number is not taken for a trip number. */
  lemma InvoiceNumberIsText(n: nat)
    ensures SetTripNumber(GetTripInvoiceNumber(n)) == Text(GetTripInvoiceNumber(n))
  {
    assert GetTripInvoiceNumber(n)[0] == 'R';
    assert Substr(GetTripInvoiceNumber(n), 0, 3)[0] == 'R';
  }
}
