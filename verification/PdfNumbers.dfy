/**
 * Numbers in a report file, as the printer writes them and as a reader finds them: decimal numbers, the ten digits of a
 * cross-reference entry, reading forwards up to the first other character, and reading a number backwards from the end
 * of the file, where section 7.5.5 of ISO 32000-1 has a reader look for the start of the table.
 */
module PdfNumbers {
  import opened PdfText

  predicate IsDigit(c: char) {
    '0' <= c <= '9'
  }

  predicate AllDigits(text: string) {
    forall i :: 0 <= i < |text| ==> IsDigit(text[i])
  }

  function Digit(n: nat): char
    requires n < 10
  {
    ('0' as int + n) as char
  }

  function Decimal(n: nat): string {
    if n < 10 then [Digit(n)] else Decimal(n / 10) + [Digit(n % 10)]
  }

  function Zeros(n: nat): string {
    seq(n, _ => '0')
  }

  /** `f"{n:010d}"`: at least ten digits. */
  function Padded(n: nat): string {
    Zeros(if |Decimal(n)| < 10 then 10 - |Decimal(n)| else 0) + Decimal(n)
  }

  function Value(digits: string): nat
    requires AllDigits(digits)
  {
    if digits == "" then 0 else Value(digits[..|digits| - 1]) * 10 + (digits[|digits| - 1] as int - '0' as int)
  }

  lemma {:induction false} DecimalReads(n: nat)
    ensures AllDigits(Decimal(n)) && Decimal(n) != "" && Value(Decimal(n)) == n
  {
    if n >= 10 {
      DecimalReads(n / 10);
      assert Decimal(n)[..|Decimal(n)| - 1] == Decimal(n / 10);
    } else {
      assert Decimal(n)[..0] == "";
    }
  }

  lemma {:induction false} LeadingZeros(n: nat, digits: string)
    requires AllDigits(digits)
    ensures AllDigits(Zeros(n) + digits) && Value(Zeros(n) + digits) == Value(digits)
    decreases |digits|, n
  {
    var all := Zeros(n) + digits;
    if digits != "" {
      LeadingZeros(n, digits[..|digits| - 1]);
      assert all[..|all| - 1] == Zeros(n) + digits[..|digits| - 1];
    } else if n > 0 {
      LeadingZeros(n - 1, "");
      assert all[..|all| - 1] == Zeros(n - 1) + "";
    }
  }

  function PowerOfTen(k: nat): nat {
    if k == 0 then 1 else 10 * PowerOfTen(k - 1)
  }

  lemma {:induction false} DecimalWidth(n: nat, k: nat)
    requires k > 0
    ensures |Decimal(n)| <= k <==> n < PowerOfTen(k)
    decreases k
  {
    if n >= 10 {
      if k == 1 {
        DecimalReads(n / 10);
        assert PowerOfTen(1) == 10 * PowerOfTen(0);
      } else {
        DecimalWidth(n / 10, k - 1);
        assert n / 10 < PowerOfTen(k - 1) <==> n < 10 * PowerOfTen(k - 1);
      }
    } else {
      AtLeastTen(k);
    }
  }

  lemma {:induction false} AtLeastTen(k: nat)
    requires k > 0
    ensures PowerOfTen(k) >= 10
  {
    if k > 1 {
      AtLeastTen(k - 1);
    } else {
      assert PowerOfTen(1) == 10 * PowerOfTen(0);
    }
  }

  const TEN_DIGITS := 10_000_000_000

  /** A padded offset is read back; it has the ten digits of section 7.5.4 exactly when it is below 10^10. */
  lemma PaddedReads(n: nat)
    ensures AllDigits(Padded(n)) && Value(Padded(n)) == n
    ensures |Padded(n)| == 10 <==> n < TEN_DIGITS
  {
    DecimalReads(n);
    LeadingZeros(if |Decimal(n)| < 10 then 10 - |Decimal(n)| else 0, Decimal(n));
    DecimalWidth(n, 10);
    TenDigits();
  }

  lemma TenDigits()
    ensures PowerOfTen(10) == TEN_DIGITS
  {
    assert PowerOfTen(5) == 10 * PowerOfTen(4) == 100000 by {
      assert PowerOfTen(3) == 10 * PowerOfTen(2) == 1000;
    }
    assert PowerOfTen(8) == 10 * PowerOfTen(7) == 1000 * PowerOfTen(5);
    assert PowerOfTen(10) == 100 * PowerOfTen(8);
  }

  // ----- Reading -----

  function DigitsAt(input: string): nat {
    if input == "" || !IsDigit(input[0]) then 0 else 1 + DigitsAt(input[1..])
  }

  lemma {:induction false} DigitsAtAre(input: string)
    ensures DigitsAt(input) <= |input| && AllDigits(input[..DigitsAt(input)])
  {
    if input != "" && IsDigit(input[0]) {
      DigitsAtAre(input[1..]);
      assert input[..DigitsAt(input)] == [input[0]] + input[1..][..DigitsAt(input[1..])];
    }
  }

  /** The number at the start of the input. */
  function ReadNumber(input: string): Parsed<nat> {
    DigitsAtAre(input);
    var n := DigitsAt(input);
    if n == 0 then Fails else Reads(Value(input[..n]), input[n..])
  }

  lemma {:induction false} DigitsThenStop(digits: string, rest: string)
    requires AllDigits(digits) && (rest == "" || !IsDigit(rest[0]))
    ensures DigitsAt(digits + rest) == |digits|
  {
    if digits == "" {
      assert digits + rest == rest;
    } else {
      DigitsThenStop(digits[1..], rest);
      assert (digits + rest)[1..] == digits[1..] + rest;
    }
  }

  lemma NumberReads(n: nat, rest: string)
    requires rest == "" || !IsDigit(rest[0])
    ensures ReadNumber(Decimal(n) + rest) == Reads(n, rest)
  {
    DecimalReads(n);
    DigitsThenStop(Decimal(n), rest);
    assert (Decimal(n) + rest)[..|Decimal(n)|] == Decimal(n);
    assert (Decimal(n) + rest)[|Decimal(n)|..] == rest;
  }

  function DigitsBefore(input: string): nat {
    if input == "" || !IsDigit(input[|input| - 1]) then 0 else 1 + DigitsBefore(input[..|input| - 1])
  }

  lemma {:induction false} DigitsBeforeAre(input: string)
    ensures DigitsBefore(input) <= |input| && AllDigits(input[|input| - DigitsBefore(input)..])
  {
    if input != "" && IsDigit(input[|input| - 1]) {
      var init := input[..|input| - 1];
      DigitsBeforeAre(init);
      assert input[|input| - DigitsBefore(input)..] == init[|init| - DigitsBefore(init)..] + [input[|input| - 1]];
    }
  }

  lemma {:induction false} StopThenDigits(front: string, digits: string)
    requires AllDigits(digits) && (front == "" || !IsDigit(front[|front| - 1]))
    ensures DigitsBefore(front + digits) == |digits|
  {
    if digits == "" {
      assert front + digits == front;
    } else {
      StopThenDigits(front, digits[..|digits| - 1]);
      assert (front + digits)[..|front + digits| - 1] == front + digits[..|digits| - 1];
    }
  }

  /** The input behind a text that it must start with. */
  function Skip(input: string, text: string): Parsed<()> {
    if text <= input then Reads((), input[|text|..]) else Fails
  }

  lemma SkipReads(text: string, rest: string)
    ensures Skip(text + rest, text) == Reads((), rest)
  {
    assert (text + rest)[|text|..] == rest;
  }

  lemma DecimalIsLatin1(n: nat)
    ensures IsLatin1(Decimal(n)) && IsLatin1(Padded(n))
  {
    DecimalReads(n);
  }
}
