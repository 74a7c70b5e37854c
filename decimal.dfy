/** Decimal text for the 32-bit ordinals of `done`: parsing as Rust's
    `str::parse::<i32>()` does it, and formatting as `{}` prints an integer. */
module Decimal {

  const I32Min: int := -0x8000_0000
  const I32Max: int := 0x7fff_ffff

  /** The reasons `str::parse::<i32>()` gives for refusing a string. */
  datatype IntErrorKind = Empty | InvalidDigit | PosOverflow | NegOverflow

  datatype Parsed = Value(n: int) | Invalid(kind: IntErrorKind)

  /** What Rust's `ParseIntError` displays for each reason. The two overflow
      reasons, and only they, begin with "number too ". */
  function Describe(kind: IntErrorKind): (r: string)
    ensures kind.PosOverflow? || kind.NegOverflow? <==> "number too " <= r
  {
    match kind
    case Empty => assert "cannot parse integer from empty string"[0] == 'c'; "cannot parse integer from empty string"
    case InvalidDigit => assert "invalid digit found in string"[0] == 'i'; "invalid digit found in string"
    case PosOverflow => "number too large to fit in target type"
    case NegOverflow => "number too small to fit in target type"
  }

  /** Each reason is displayed with its own message. */
  lemma DescribeDistinct(a: IntErrorKind, b: IntErrorKind)
    requires Describe(a) == Describe(b)
    ensures a == b
  {
  }

  predicate IsDigit(c: char)
  {
    '0' <= c <= '9'
  }

  function DigitValue(c: char): nat
    requires IsDigit(c)
  {
    c as int - '0' as int
  }

  function DigitChar(d: nat): char
    requires d < 10
  {
    ('0' as int + d) as char
  }

  /** Reads the digits of `s` left to right into `acc`, adding each digit for a
      positive number and subtracting it for a negative one, and stops at the
      first character that is not a digit or the first step that leaves the
      32-bit range. */
  function Accumulate(s: string, acc: int, negative: bool): (r: Parsed)
    requires I32Min <= acc <= I32Max
    ensures r.Value? ==> I32Min <= r.n <= I32Max
    ensures r != Invalid(Empty)
  {
    if s == [] then Value(acc)
    else if !IsDigit(s[0]) then Invalid(InvalidDigit)
    else
      var next := if negative then acc * 10 - DigitValue(s[0]) else acc * 10 + DigitValue(s[0]);
      if next > I32Max then Invalid(PosOverflow)
      else if next < I32Min then Invalid(NegOverflow)
      else Accumulate(s[1..], next, negative)
  }

  /** `s.parse::<i32>()`: an optional `+` or `-` followed by at least one
      decimal digit, with a value that fits in 32 bits. */
  function ParseI32(s: string): (r: Parsed)
    ensures r.Value? ==> I32Min <= r.n <= I32Max
    ensures r == Invalid(Empty) <==> s == []
  {
    if s == [] then Invalid(Empty)
    else if (s[0] == '+' || s[0] == '-') && |s| == 1 then Invalid(InvalidDigit)
    else if s[0] == '+' then Accumulate(s[1..], 0, false)
    else if s[0] == '-' then Accumulate(s[1..], 0, true)
    else Accumulate(s, 0, false)
  }

  predicate AllDigits(s: string)
  {
    forall i :: 0 <= i < |s| ==> IsDigit(s[i])
  }

  /** `s` without its leading sign, if it has one. */
  function Unsigned(s: string): string
  {
    if s != [] && (s[0] == '+' || s[0] == '-') then s[1..] else s
  }

  predicate Negative(s: string)
  {
    s != [] && s[0] == '-'
  }

  /** The largest magnitude a 32-bit number of that sign can have. */
  function Limit(negative: bool): nat
  {
    if negative then -I32Min else I32Max
  }

  /** The value of the digit string `s` read after the digits of `m`, with no
      bound on its size. */
  function ReadDigits(s: string, m: nat): nat
    requires AllDigits(s)
  {
    if s == [] then m else ReadDigits(s[1..], m * 10 + DigitValue(s[0]))
  }

  lemma {:induction false} ReadDigitsAtLeast(s: string, m: nat)
    requires AllDigits(s)
    ensures ReadDigits(s, m) >= m
  {
    if s != [] {
      ReadDigitsAtLeast(s[1..], m * 10 + DigitValue(s[0]));
    }
  }

  /** Accumulating from `m` (or `-m`) succeeds exactly when the rest is all
      digits and the full value fits, and then yields that value. */
  lemma {:induction false} AccumulateMeaning(s: string, m: nat, negative: bool)
    requires m <= Limit(negative)
    ensures var r := Accumulate(s, if negative then -(m as int) else m as int, negative);
      && (r.Value? <==> AllDigits(s) && ReadDigits(s, m) <= Limit(negative))
      && (r.Value? ==> r.n == if negative then -(ReadDigits(s, m) as int) else ReadDigits(s, m))
  {
    if s != [] {
      if IsDigit(s[0]) {
        var m' := m * 10 + DigitValue(s[0]);
        if m' <= Limit(negative) {
          AccumulateMeaning(s[1..], m', negative);
          if !AllDigits(s[1..]) {
            var i :| 0 <= i < |s[1..]| && !IsDigit(s[1..][i]);
            assert !IsDigit(s[i + 1]);
          }
        } else if AllDigits(s) {
          ReadDigitsAtLeast(s[1..], m');
        }
      }
    }
  }

  /** `str::parse::<i32>` accepts exactly an optional sign followed by at least
      one digit whose value fits in 32 bits, and returns that value; every
      other string is refused. */
  lemma ParseI32Meaning(s: string)
    ensures var body := Unsigned(s);
      && (ParseI32(s).Value? <==> body != [] && AllDigits(body) && ReadDigits(body, 0) <= Limit(Negative(s)))
      && (ParseI32(s).Value? ==> ParseI32(s).n == if Negative(s) then -(ReadDigits(body, 0) as int) else ReadDigits(body, 0))
  {
    AccumulateMeaning(Unsigned(s), 0, Negative(s));
  }

  /** A character other than a digit right after the optional sign, or no
      digit at all, is refused as an invalid digit. */
  lemma ParseLeadingNonDigit(s: string)
    requires s != []
    requires Unsigned(s) == [] || !IsDigit(Unsigned(s)[0])
    ensures ParseI32(s) == Invalid(InvalidDigit)
  {
  }

  /** The decimal digits of `n`, most significant first, without leading zeros. */
  function FormatNat(n: nat): (s: string)
    ensures |s| >= 1
    ensures forall i :: 0 <= i < |s| ==> IsDigit(s[i])
  {
    if n < 10 then [DigitChar(n)] else FormatNat(n / 10) + [DigitChar(n % 10)]
  }

  /** How `{}` prints a signed integer. */
  function FormatInt(n: int): string
  {
    if n < 0 then "-" + FormatNat(-n) else FormatNat(n)
  }

  /** Reading the digits of `n` on from an empty accumulator leaves `n` (or `-n`)
      in the accumulator, as long as it stays in range. */
  lemma {:induction false} AccumulateDigits(n: nat, rest: string, negative: bool)
    requires if negative then n <= -I32Min else n <= I32Max
    ensures Accumulate(FormatNat(n) + rest, 0, negative)
         == Accumulate(rest, if negative then -(n as int) else n as int, negative)
  {
    var d := n % 10;
    assert DigitValue(DigitChar(d)) == d;
    if n < 10 {
      assert (FormatNat(n) + rest)[1..] == rest;
    } else {
      AccumulateDigits(n / 10, [DigitChar(d)] + rest, negative);
      assert FormatNat(n) + rest == FormatNat(n / 10) + ([DigitChar(d)] + rest);
      assert ([DigitChar(d)] + rest)[1..] == rest;
    }
  }

  /** An ordinal printed by a listing and typed back is read as the same number. */
  lemma ParseFormat(n: int)
    requires I32Min <= n <= I32Max
    ensures ParseI32(FormatInt(n)) == Value(n)
  {
    if n < 0 {
      AccumulateDigits(-n, [], true);
      assert FormatNat(-n) + [] == FormatNat(-n);
      assert ("-" + FormatNat(-n))[1..] == FormatNat(-n);
    } else {
      AccumulateDigits(n, [], false);
      assert FormatNat(n) + [] == FormatNat(n);
    }
  }
}
