/** Go's `strconv.Atoi` on a 64-bit platform, and `strconv.Itoa` as the
    formatting function it inverts. */
module GoStrconv {
  import opened GoErrors

  const MinInt64: int := -0x8000_0000_0000_0000
  const MaxInt64: int := 0x7fff_ffff_ffff_ffff

  predicate IsDigit(c: char) { '0' <= c <= '9' }

  predicate AllDigits(s: string) {
    forall i :: 0 <= i < |s| ==> IsDigit(s[i])
  }

  function DigitValue(c: char): nat
    requires IsDigit(c)
  {
    c as int - '0' as int
  }

  function DigitChar(d: nat): char
    requires d < 10
  {
    ('0' as int + d) as char
  }

  /** The value of a run of decimal digits, most significant first. */
  function DigitsValue(s: string): nat
    requires AllDigits(s)
    decreases |s|
  {
    if |s| == 0 then 0
    else DigitsValue(s[..|s| - 1]) * 10 + DigitValue(s[|s| - 1])
  }

  /** The digits after an optional leading `+` or `-`. */
  function Unsigned(s: string): string {
    if |s| > 0 && (s[0] == '-' || s[0] == '+') then s[1..] else s
  }

  /** The value of a sign and a run of digits, when the digits are
      well-formed and the value fits in 64 bits. */
  function SignedValue(negative: bool, digits: string): (r: Result<int>)
    ensures r.Ok? ==> |digits| > 0 && AllDigits(digits)
    ensures r.Ok? ==> MinInt64 <= r.value <= MaxInt64
  {
    if |digits| == 0 || !AllDigits(digits) then Err("invalid syntax")
    else
      var magnitude: int := DigitsValue(digits);
      var v: int := if negative then -magnitude else magnitude;
      if v < MinInt64 || v > MaxInt64 then Err("value out of range") else Ok(v)
  }

  /** The value an optional sign and a run of digits denote, read without
      any range limit. */
  function SignedDigits(s: string): int
    requires AllDigits(Unsigned(s))
  {
    var magnitude: int := DigitsValue(Unsigned(s));
    if |s| > 0 && s[0] == '-' then -magnitude else magnitude
  }

  /** `strconv.Atoi(s)`: an optional sign and one or more decimal digits
      whose value fits in a 64-bit `int`; nothing else is accepted (no
      spaces, no underscores, no base prefix). */
  function Atoi(s: string): (r: Result<int>)
    ensures r.Ok? ==> |s| > 0 && (IsDigit(s[0]) || s[0] == '-' || s[0] == '+')
    ensures r.Ok? <==> |Unsigned(s)| > 0 && AllDigits(Unsigned(s)) && MinInt64 <= SignedDigits(s) <= MaxInt64
    ensures r.Ok? ==> r.value == SignedDigits(s)
  {
    SignedValue(|s| > 0 && s[0] == '-', Unsigned(s))
  }

  /** Whether `strconv.Atoi` accepts `s` (its error is nil). */
  predicate IsInt(s: string) {
    Atoi(s).Ok?
  }

  /** `strconv.Itoa` of a natural number: its shortest decimal form. */
  function NatDigits(n: nat): (r: string)
    ensures |r| >= 1 && AllDigits(r)
    decreases n
  {
    if n < 10 then [DigitChar(n)] else NatDigits(n / 10) + [DigitChar(n % 10)]
  }

  /** `strconv.Itoa(n)`. */
  function Itoa(n: int): string {
    if n < 0 then "-" + NatDigits(-n) else NatDigits(n)
  }

  /** Reading back the digits `NatDigits` writes gives the number. */
  lemma {:induction false} NatDigitsValue(n: nat)
    ensures DigitsValue(NatDigits(n)) == n
    decreases n
  {
    var s := NatDigits(n);
    if n >= 10 {
      NatDigitsValue(n / 10);
      assert s[..|s| - 1] == NatDigits(n / 10);
    }
  }

  /** `Atoi` reads a run of digits as its value. */
  lemma AtoiOfDigits(digits: string)
    requires |digits| > 0 && AllDigits(digits)
    requires DigitsValue(digits) <= MaxInt64
    ensures Atoi(digits) == Ok(DigitsValue(digits))
  {
    assert IsDigit(digits[0]);
    assert Atoi(digits) == SignedValue(false, digits);
  }

  /** `Atoi` reads '-' followed by a run of digits as the negated value. */
  lemma AtoiOfNegatedDigits(digits: string)
    requires |digits| > 0 && AllDigits(digits)
    requires MinInt64 <= -(DigitsValue(digits) as int)
    ensures Atoi("-" + digits) == Ok(-(DigitsValue(digits) as int))
  {
    var s := "-" + digits;
    assert s[1..] == digits;
    assert Atoi(s) == SignedValue(true, digits);
  }

  /** `Atoi` reads '+' followed by a run of digits as the value. */
  lemma AtoiOfPlusDigits(digits: string)
    requires |digits| > 0 && AllDigits(digits)
    requires DigitsValue(digits) <= MaxInt64
    ensures Atoi("+" + digits) == Ok(DigitsValue(digits))
  {
    var s := "+" + digits;
    assert s[1..] == digits;
    assert Atoi(s) == SignedValue(false, digits);
  }

  /** `Atoi` inverts `Itoa` on every 64-bit integer. */
  lemma AtoiItoa(n: int)
    requires MinInt64 <= n <= MaxInt64
    ensures Atoi(Itoa(n)) == Ok(n)
  {
    if n < 0 {
      NatDigitsValue(-n);
      AtoiOfNegatedDigits(NatDigits(-n));
    } else {
      NatDigitsValue(n);
      AtoiOfDigits(NatDigits(n));
    }
  }

  /** Every character `Atoi` accepts after the first is a digit. */
  lemma AtoiAcceptsOnlyDigits(s: string)
    requires IsInt(s)
    ensures forall i :: 0 < i < |s| ==> IsDigit(s[i])
  {
    var digits := Unsigned(s);
    forall i | 0 < i < |s| ensures IsDigit(s[i]) {
      if s[0] == '-' || s[0] == '+' {
        assert digits[i - 1] == s[i];
      } else {
        assert digits[i] == s[i];
      }
    }
  }

  /** A string containing a character that is neither a digit nor a sign is
      never an integer; in particular a brace is never part of one. */
  lemma NotIntWithForeignChar(s: string, i: int)
    requires 0 <= i < |s| && !IsDigit(s[i]) && s[i] != '-' && s[i] != '+'
    ensures !IsInt(s)
  {
    if IsInt(s) {
      AtoiAcceptsOnlyDigits(s);
    }
  }
}
