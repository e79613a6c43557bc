/** The interval prompt of `main`: it asks again until the answer is a whole
    number greater than zero. An answer is taken as a plain decimal numeral with an
    optional minus sign; reaching the end of input makes `input()` raise EOFError,
    which the loop does not catch. */
module Interval {
  import opened Wrappers

  predicate IsDigit(c: char) {
    '0' <= c <= '9'
  }

  predicate AllDigits(s: string) {
    forall k :: 0 <= k < |s| ==> IsDigit(s[k])
  }

  /** The value of a string of decimal digits, most significant first. */
  function DigitsValue(s: string): nat
    requires AllDigits(s)
  {
    if s == [] then 0
    else DigitsValue(s[..|s| - 1]) * 10 + (s[|s| - 1] as int - '0' as int)
  }

  /** What `int(s)` accepts here: an optional `-` and at least one digit. */
  function ParseInt(s: string): (r: Option<int>)
    ensures r.Some? <==> (|s| > 0 && AllDigits(s)) || (|s| > 1 && s[0] == '-' && AllDigits(s[1..]))
    ensures r.Some? ==> (r.value < 0 ==> s[0] == '-')
  {
    if |s| > 0 && s[0] == '-' then
      if |s| > 1 && AllDigits(s[1..]) then Some(-(DigitsValue(s[1..]) as int)) else None
    else if |s| > 0 && AllDigits(s) then Some(DigitsValue(s))
    else None
  }

  /** The decimal numeral of `n`, most significant digit first. */
  function Digits(n: nat): (s: string)
    ensures |s| > 0 && AllDigits(s)
  {
    if n < 10 then [('0' as int + n) as char]
    else Digits(n / 10) + [('0' as int + n % 10) as char]
  }

  /** The numeral of an integer, as `str(n)` writes it. */
  function Show(n: int): string {
    if n < 0 then "-" + Digits(-n) else Digits(n)
  }

  lemma {:induction false} DigitsValueOfDigits(n: nat)
    ensures DigitsValue(Digits(n)) == n
  {
    if n >= 10 {
      var s := Digits(n);
      assert s[..|s| - 1] == Digits(n / 10);
      DigitsValueOfDigits(n / 10);
    }
  }

  /** Every integer's numeral parses back to that integer. */
  lemma ParseShow(n: int)
    ensures ParseInt(Show(n)) == Some(n)
  {
    if n < 0 {
      DigitsValueOfDigits(-n);
      assert Show(n)[1..] == Digits(-n);
    } else {
      DigitsValueOfDigits(n);
    }
  }

  /** A leading zero does not change the value of a numeral. */
  lemma {:induction false} LeadingZero(s: string)
    requires AllDigits(s)
    ensures DigitsValue("0" + s) == DigitsValue(s)
  {
    if s != [] {
      assert ("0" + s)[..|"0" + s| - 1] == "0" + s[..|s| - 1];
      LeadingZero(s[..|s| - 1]);
    }
  }

  /** A numeral without a leading zero has a positive value. */
  lemma {:induction false} NoLeadingZeroPositive(s: string)
    requires |s| > 0 && AllDigits(s) && s[0] != '0'
    ensures DigitsValue(s) > 0
  {
    if |s| > 1 {
      NoLeadingZeroPositive(s[..|s| - 1]);
    }
  }

  /** A numeral without leading zeros is the numeral of its own value, so
      together with LeadingZero every accepted digit string has a determined value. */
  lemma {:induction false} DigitsOfValue(s: string)
    requires |s| > 0 && AllDigits(s) && (s[0] != '0' || |s| == 1)
    ensures Digits(DigitsValue(s)) == s
  {
    if |s| > 1 {
      var p := s[..|s| - 1];
      NoLeadingZeroPositive(p);
      DigitsOfValue(p);
      assert p + [s[|s| - 1]] == s;
    }
  }

  /** A minus sign negates the value of a digit string. */
  lemma ParseNegative(s: string)
    requires |s| > 0 && AllDigits(s)
    ensures ParseInt("-" + s) == Some(-ParseInt(s).value)
  {
    assert ("-" + s)[1..] == s;
  }

  /** An answer that ends the prompt. */
  predicate Acceptable(answer: string) {
    ParseInt(answer).Some? && ParseInt(answer).value > 0
  }

  datatype Prompt =
    | Chosen(interval: int, consumed: nat)  // accepted after reading `consumed` answers
    | InputEnded                            // EOF: the exception ends the program

  /** `if interval == 0: interval = 10` after the prompt loop. */
  function DefaultIfZero(interval: int): (r: int)
    ensures r != 0
    ensures interval != 0 ==> r == interval
  {
    if interval == 0 then 10 else interval
  }

  /** The `while True` prompt over the answers the user types, in order: an
      unparsable answer and a non-positive one both ask again, so the first
      acceptable answer is the one used, and the default of 10 is never reached. */
  method PromptInterval(answers: seq<string>) returns (r: Prompt)
    ensures r.Chosen? ==> 0 < r.consumed <= |answers| && Acceptable(answers[r.consumed - 1])
    ensures r.Chosen? ==> ParseInt(answers[r.consumed - 1]) == Some(r.interval) && r.interval > 0
    ensures r.Chosen? ==> forall j :: 0 <= j < r.consumed - 1 ==> !Acceptable(answers[j])
    ensures r.InputEnded? <==> forall j :: 0 <= j < |answers| ==> !Acceptable(answers[j])
    ensures r.Chosen? ==> DefaultIfZero(r.interval) == r.interval
  {
    var i := 0;
    while i < |answers|
      invariant 0 <= i <= |answers|
      invariant forall j :: 0 <= j < i ==> !Acceptable(answers[j])
    {
      var parsed := ParseInt(answers[i]);
      i := i + 1;
      if parsed.None? {
        continue;  // ValueError: "Invalid input"
      }
      if parsed.value <= 0 {
        continue;  // "Please enter a positive number"
      }
      return Chosen(parsed.value, i);
    }
    return InputEnded;
  }
}
