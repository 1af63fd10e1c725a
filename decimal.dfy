/**
 * Decimal text for unsigned integers, as the timer engine uses it:
 * Rust's `u32::from_str` (`str::parse::<u32>`) for the hours, minutes and
 * seconds fields, and the `{}` / `{:02}` formats for the HH:MM:SS display.
 */
module Decimal {
  import opened Outcomes

  /** `u32::MAX`. */
  const U32_MAX: nat := 0xFFFF_FFFF

  /** The kinds of `ParseIntError` that parsing a `u32` can report. */
  datatype ParseError = Empty | InvalidDigit | PosOverflow

  predicate IsDigit(c: char) {
    '0' <= c <= '9'
  }

  function DigitValue(c: char): (d: nat)
    requires IsDigit(c)
    ensures d < 10
  {
    c as int - '0' as int
  }

  function DigitChar(d: nat): (c: char)
    requires d < 10
    ensures IsDigit(c) && DigitValue(c) == d
  {
    ('0' as int + d) as char
  }

  predicate AllDigits(s: string) {
    forall i :: 0 <= i < |s| ==> IsDigit(s[i])
  }

  /** The number denoted by the digits `s` read after digits denoting `acc`. */
  function Fold(s: string, acc: nat): nat
    requires AllDigits(s)
    decreases |s|
  {
    if s == [] then acc else Fold(s[1..], acc * 10 + DigitValue(s[0]))
  }

  /** The number a digit string denotes (leading zeros allowed). */
  function Value(s: string): nat
    requires AllDigits(s)
  {
    Fold(s, 0)
  }

  /**
   * The digit loop of Rust's integer parser: each character is first
   * checked to be a digit, then `acc * 10 + digit` is checked to fit.
   */
  function Accumulate(s: string, acc: nat): (r: Result<nat, ParseError>)
    ensures r != Err(Empty)
    ensures acc <= U32_MAX && r.Ok? ==> acc <= r.value <= U32_MAX
    decreases |s|
  {
    if s == [] then Ok(acc)
    else if !IsDigit(s[0]) then Err(InvalidDigit)
    else if acc * 10 + DigitValue(s[0]) > U32_MAX then Err(PosOverflow)
    else Accumulate(s[1..], acc * 10 + DigitValue(s[0]))
  }

  /** The digits after an optional leading `+`. */
  function Unsigned(s: string): string {
    if |s| > 0 && s[0] == '+' then s[1..] else s
  }

  /**
   * `s.parse::<u32>()`: an empty string is `Empty`; a lone sign is
   * `InvalidDigit`; one leading `+` is skipped (a `-` is not, so it is an
   * invalid digit); then the digits are accumulated left to right.
   */
  function ParseU32(s: string): (r: Result<nat, ParseError>)
    ensures r == Err(Empty) <==> s == []
    ensures r.Ok? ==> r.value <= U32_MAX
  {
    if s == [] then Err(Empty)
    else if (s[0] == '+' || s[0] == '-') && |s| == 1 then Err(InvalidDigit)
    else if s[0] == '+' then Accumulate(s[1..], 0)
    else Accumulate(s, 0)
  }

  /** Decimal digits of `n` without padding, as Rust's `{}` format prints them. */
  function ToDecimal(n: nat): (s: string)
    ensures |s| >= 1 && AllDigits(s)
    decreases n
  {
    if n < 10 then [DigitChar(n)] else ToDecimal(n / 10) + [DigitChar(n % 10)]
  }

  /** Rust's `{:02}` format: at least two digits, padded with a leading zero. */
  function Pad2(n: nat): string {
    if n < 10 then "0" + ToDecimal(n) else ToDecimal(n)
  }

  lemma {:induction false} FoldAtLeast(s: string, acc: nat)
    requires AllDigits(s)
    ensures Fold(s, acc) >= acc
    decreases |s|
  {
    if s != [] {
      FoldAtLeast(s[1..], acc * 10 + DigitValue(s[0]));
    }
  }

  /** The digit loop succeeds exactly on digit strings whose value fits in a u32. */
  lemma {:induction false} AccumulateCorrect(s: string, acc: nat)
    requires acc <= U32_MAX
    ensures Accumulate(s, acc).Ok? <==> AllDigits(s) && Fold(s, acc) <= U32_MAX
    ensures Accumulate(s, acc).Ok? ==> Accumulate(s, acc).value == Fold(s, acc)
    decreases |s|
  {
    if s != [] {
      if IsDigit(s[0]) {
        var next := acc * 10 + DigitValue(s[0]);
        if next <= U32_MAX {
          AccumulateCorrect(s[1..], next);
          assert AllDigits(s) <==> AllDigits(s[1..]) by {
            if AllDigits(s[1..]) {
              forall i | 0 <= i < |s| ensures IsDigit(s[i]) {
                if i > 0 { assert s[i] == s[1..][i - 1]; }
              }
            }
          }
        } else if AllDigits(s) {
          FoldAtLeast(s[1..], next);
        }
      }
    }
  }

  /**
   * `parse::<u32>` accepts exactly an optional `+` followed by one or more
   * ASCII digits whose value is at most `u32::MAX`, and yields that value.
   */
  lemma ParseU32Correct(s: string)
    ensures ParseU32(s).Ok? <==>
      (Unsigned(s) != [] && AllDigits(Unsigned(s)) && Value(Unsigned(s)) <= U32_MAX)
    ensures ParseU32(s).Ok? ==> ParseU32(s).value == Value(Unsigned(s))
  {
    if s != [] {
      if s[0] == '+' && |s| == 1 {
      } else if s[0] == '-' && |s| == 1 {
        assert !IsDigit(Unsigned(s)[0]);
      } else {
        AccumulateCorrect(Unsigned(s), 0);
      }
    }
  }

  lemma {:induction false} FoldAppend(a: string, b: string, acc: nat)
    requires AllDigits(a) && AllDigits(b)
    ensures AllDigits(a + b) && Fold(a + b, acc) == Fold(b, Fold(a, acc))
    decreases |a|
  {
    if a == [] {
      assert a + b == b;
    } else {
      assert (a + b)[1..] == a[1..] + b;
      FoldAppend(a[1..], b, acc * 10 + DigitValue(a[0]));
    }
  }

  /** Formatting a number and reading it back gives the number. */
  lemma {:induction false} ValueOfDecimal(n: nat)
    ensures Value(ToDecimal(n)) == n
    decreases n
  {
    if n >= 10 {
      ValueOfDecimal(n / 10);
      FoldAppend(ToDecimal(n / 10), [DigitChar(n % 10)], 0);
      assert Fold([DigitChar(n % 10)], n / 10) == (n / 10) * 10 + n % 10;
    }
  }

  /** Printing any `u32` value in decimal and parsing the text gives the value back. */
  lemma ParseDecimal(n: nat)
    requires n <= U32_MAX
    ensures ParseU32(ToDecimal(n)) == Ok(n)
  {
    ValueOfDecimal(n);
    ParseU32Correct(ToDecimal(n));
  }

  lemma {:induction false} DecimalLength(n: nat)
    ensures |ToDecimal(n)| == 1 <==> n < 10
    ensures |ToDecimal(n)| == 2 <==> 10 <= n < 100
    decreases n
  {
    if n >= 10 {
      DecimalLength(n / 10);
    }
  }

  /** The decimal text of a positive number has no leading zero. */
  lemma {:induction false} NoLeadingZero(n: nat)
    requires n >= 1
    ensures ToDecimal(n)[0] != '0'
    decreases n
  {
    if n >= 10 {
      NoLeadingZero(n / 10);
    }
  }

  /**
   * `{:02}` always prints at least two digits, exactly two below 100, a
   * leading zero only below 10, and the printed text parses back to the
   * number.
   */
  lemma Pad2Correct(n: nat)
    ensures AllDigits(Pad2(n)) && |Pad2(n)| >= 2
    ensures |Pad2(n)| == 2 <==> n < 100
    ensures Pad2(n)[0] == '0' <==> n < 10
    ensures Value(Pad2(n)) == n
    ensures n <= U32_MAX ==> ParseU32(Pad2(n)) == Ok(n)
  {
    DecimalLength(n);
    ValueOfDecimal(n);
    if n >= 10 {
      NoLeadingZero(n);
    }
    if n < 10 {
      FoldAppend("0", ToDecimal(n), 0);
    }
    ParseU32Correct(Pad2(n));
  }
}
