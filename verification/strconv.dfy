/** The integer test of the Go programs: `strconv.Atoi` on a 64-bit platform.
    It accepts an optional single `+` or `-`, then one or more ASCII digits,
    whose value must fit in Go's 64-bit `int`. Strings of up to 18 bytes take
    a fast path; longer ones go through `ParseInt` and `ParseUint`, whose
    digit loop stops at the first non-digit (a syntax error) or at the first
    digit that overflows `uint64` (a range error), whichever comes first. */
module Strconv {
  import opened Common

  const MinInt: int := -0x8000_0000_0000_0000
  const MaxInt: int := 0x7fff_ffff_ffff_ffff

  datatype NumError = ErrSyntax | ErrRange

  predicate IsDigit(c: char) {
    '0' <= c <= '9'
  }

  predicate AllDigits(s: string) {
    forall i :: 0 <= i < |s| ==> IsDigit(s[i])
  }

  function DigitValue(c: char): nat
    requires IsDigit(c)
  {
    c as int - '0' as int
  }

  /** The value of a string of decimal digits, most significant first. */
  function DigitsValue(s: string): nat
    requires AllDigits(s)
  {
    if |s| == 0 then 0 else DigitsValue(s[..|s| - 1]) * 10 + DigitValue(s[|s| - 1])
  }

  predicate IsSign(c: char) {
    c == '+' || c == '-'
  }

  /** The digits that follow an optional leading sign. */
  function Magnitude(s: string): string {
    if |s| > 0 && IsSign(s[0]) then s[1..] else s
  }

  /** The decimal grammar Atoi accepts: `[+-]?[0-9]+`. */
  predicate WellFormed(s: string) {
    |Magnitude(s)| > 0 && AllDigits(Magnitude(s))
  }

  /** The number a well-formed string spells. */
  function SignedValue(s: string): int
    requires WellFormed(s)
  {
    var m: int := DigitsValue(Magnitude(s));
    if s[0] == '-' then -m else m
  }

  /** The index of the first non-digit, or `|s|` when there is none. */
  function FirstNonDigit(s: string): (k: nat)
    ensures k <= |s| && AllDigits(s[..k])
    ensures k < |s| ==> !IsDigit(s[k])
  {
    if |s| == 0 || !IsDigit(s[0]) then 0
    else
      var k := 1 + FirstNonDigit(s[1..]);
      assert forall i :: 1 <= i < k ==> s[..k][i] == s[1..][..k - 1][i - 1];
      k
  }

  /** The digits before the first non-digit: all that the digit loop of
      `ParseUint` reads before it stops on a syntax error. */
  function LeadingDigits(s: string): (t: string)
    ensures AllDigits(t)
  {
    s[..FirstNonDigit(s)]
  }

  /** The largest `uint64`. */
  const MaxUint64: int := 0xffff_ffff_ffff_ffff

  /** `maxUint64/10 + 1`: from here on, `n * 10` overflows. */
  const Cutoff: int := MaxUint64 / 10 + 1

  /** The digit loop of `ParseUint(s, 10, 64)` from accumulator `n`: a
      non-digit is a syntax error, and the first step past `MaxUint64` is a
      range error, whatever follows it. */
  function ScanDigits(s: string, n: nat): Result<nat, NumError>
    requires n <= MaxUint64
  {
    if |s| == 0 then Ok(n)
    else if !IsDigit(s[0]) then Err(ErrSyntax)
    else if n >= Cutoff then Err(ErrRange)
    else
      var n1 := n * 10 + DigitValue(s[0]);
      if n1 > MaxUint64 then Err(ErrRange) else ScanDigits(s[1..], n1)
  }

  /** `ParseUint(s, 10, 64)`. */
  function ParseUint(s: string): Result<nat, NumError> {
    if |s| == 0 then Err(ErrSyntax) else ScanDigits(s, 0)
  }

  /** `ParseInt(s, 10, 0)` with a 64-bit `int`: one optional sign, then
      `ParseUint`; a syntax or range error passes through, and a magnitude
      beyond the signed range is a range error. */
  function ParseInt(s: string): Result<int, NumError> {
    if |s| == 0 then Err(ErrSyntax)
    else
      var neg := s[0] == '-';
      match ParseUint(Magnitude(s))
      case Err(e) => Err(e)
      case Ok(un) =>
        if !neg && un > MaxInt then Err(ErrRange)
        else if neg && un > -MinInt then Err(ErrRange)
        else Ok(if neg then -(un as int) else un)
  }

  /** The fast path of `Atoi` for strings of 1 to 18 bytes, which cannot
      overflow: one optional sign, then digits only. */
  function SmallAtoi(s: string): Result<int, NumError>
    requires 0 < |s| < 19
  {
    var m := Magnitude(s);
    if |m| < 1 || !AllDigits(m) then Err(ErrSyntax)
    else
      var v: int := DigitsValue(m);
      Ok(if s[0] == '-' then -v else v)
  }

  /** `strconv.Atoi` on a 64-bit platform: the fast path for short strings,
      `ParseInt` for the rest. It succeeds exactly on the well-formed strings
      whose value fits in `int`, with that value. It fails with a syntax
      error exactly when the string is malformed and the digits before the
      first offending byte have not yet overflowed `uint64`; otherwise it
      fails with a range error. */
  function Atoi(s: string): (r: Result<int, NumError>)
    ensures r.Ok? <==> WellFormed(s) && MinInt <= SignedValue(s) <= MaxInt
    ensures r.Ok? ==> r.value == SignedValue(s)
    ensures r == Err(ErrSyntax) <==> !WellFormed(s) && DigitsValue(LeadingDigits(Magnitude(s))) <= MaxUint64
  {
    ParseIntSpec(s);
    if 0 < |s| < 19 then
      SmallAtoiAgrees(s);
      SmallAtoi(s)
    else
      ParseInt(s)
  }

  /** The cell test used by every Go validator: Atoi reports no error. */
  predicate Parses(s: string) {
    Atoi(s).Ok?
  }

  function DigitChar(d: nat): (c: char)
    requires d < 10
    ensures IsDigit(c) && DigitValue(c) == d
  {
    ('0' as int + d) as char
  }

  /** The shortest decimal spelling of a natural number. */
  function Digits(n: nat): (s: string)
    ensures |s| > 0 && AllDigits(s)
    ensures s[0] != '0' || n == 0
  {
    if n < 10 then [DigitChar(n)] else Digits(n / 10) + [DigitChar(n % 10)]
  }

  /** Go's `strconv.Itoa`: the canonical spelling of an integer. */
  function Itoa(x: int): string {
    if x < 0 then "-" + Digits(-x) else Digits(x)
  }

  lemma {:induction false} DigitsValueOfDigits(n: nat)
    ensures DigitsValue(Digits(n)) == n
  {
    if n >= 10 {
      var s := Digits(n);
      assert s[..|s| - 1] == Digits(n / 10);
      DigitsValueOfDigits(n / 10);
    }
  }

  /** Round trip: Atoi reads back every `int` that Itoa writes. */
  lemma AtoiItoa(x: int)
    requires MinInt <= x <= MaxInt
    ensures Atoi(Itoa(x)) == Ok(x)
  {
    var s := Itoa(x);
    if x < 0 {
      assert s[0] == '-';
      assert Magnitude(s) == Digits(-x);
      DigitsValueOfDigits(-x);
    } else {
      assert Magnitude(s) == Digits(x);
      DigitsValueOfDigits(x);
    }
  }

  /** A sign alone, an empty cell, a second sign and a blank are syntax errors. */
  lemma AtoiSyntaxErrors()
    ensures Atoi("") == Err(ErrSyntax)
    ensures Atoi("-") == Err(ErrSyntax)
    ensures Atoi("+-1") == Err(ErrSyntax)
    ensures Atoi("x") == Err(ErrSyntax)
    ensures Atoi(" 1") == Err(ErrSyntax)
  {
    assert !IsDigit('-');
    assert !IsDigit(' ');
  }

  /** One past the largest `int` is well formed but out of range. */
  lemma AtoiRangeError()
    ensures WellFormed(Itoa(MaxInt + 1))
    ensures Atoi(Itoa(MaxInt + 1)) == Err(ErrRange)
  {
    var s := Itoa(MaxInt + 1);
    assert Magnitude(s) == Digits(MaxInt + 1);
    DigitsValueOfDigits(MaxInt + 1);
    assert SignedValue(s) == MaxInt + 1;
    OtherErrorIsRange(Atoi(s));
  }

  lemma OtherErrorIsRange(r: Result<int, NumError>)
    ensures r.Ok? || r == Err(ErrSyntax) || r == Err(ErrRange)
  {
    match r
    case Ok(_) =>
    case Err(e) => assert e == ErrSyntax || e == ErrRange;
  }

  /** The digit loop's accumulator, read left to right. */
  function Accumulate(n: nat, s: string): nat
    requires AllDigits(s)
    decreases |s|
  {
    if |s| == 0 then n else Accumulate(n * 10 + DigitValue(s[0]), s[1..])
  }

  lemma {:induction false} AccumulateSnoc(n: nat, s: string, c: char)
    requires AllDigits(s) && IsDigit(c)
    ensures AllDigits(s + [c])
    ensures Accumulate(n, s + [c]) == Accumulate(n, s) * 10 + DigitValue(c)
    decreases |s|
  {
    assert AllDigits(s + [c]);
    if |s| > 0 {
      assert (s + [c])[1..] == s[1..] + [c];
      AccumulateSnoc(n * 10 + DigitValue(s[0]), s[1..], c);
    }
  }

  /** Read left to right from 0, the digits give their value. */
  lemma {:induction false} AccumulateIsValue(s: string)
    requires AllDigits(s)
    ensures Accumulate(0, s) == DigitsValue(s)
  {
    if |s| > 0 {
      var k := |s| - 1;
      assert s == s[..k] + [s[k]];
      AccumulateIsValue(s[..k]);
      AccumulateSnoc(0, s[..k], s[k]);
    }
  }

  lemma {:induction false} AccumulateGrows(n: nat, s: string)
    requires AllDigits(s)
    ensures Accumulate(n, s) >= n
    ensures |s| > 0 ==> Accumulate(n, s) >= n * 10 + DigitValue(s[0])
    decreases |s|
  {
    if |s| > 0 {
      AccumulateGrows(n * 10 + DigitValue(s[0]), s[1..]);
    }
  }

  /** The digit loop succeeds exactly on digit strings whose value, read
      on from `n`, fits in `uint64`, and yields that value. */
  lemma {:induction false} ScanDigitsOk(s: string, n: nat)
    requires n <= MaxUint64
    ensures ScanDigits(s, n).Ok? <==> AllDigits(s) && Accumulate(n, s) <= MaxUint64
    ensures ScanDigits(s, n).Ok? ==> ScanDigits(s, n).value == Accumulate(n, s)
  {
    if |s| > 0 && IsDigit(s[0]) {
      if AllDigits(s) {
        AccumulateGrows(n, s);
      }
      if n < Cutoff && n * 10 + DigitValue(s[0]) <= MaxUint64 {
        ScanDigitsOk(s[1..], n * 10 + DigitValue(s[0]));
        assert AllDigits(s) <==> AllDigits(s[1..]);
      }
    }
  }

  /** The digit loop stops with a syntax error exactly when a non-digit
      comes before the accumulator has passed `MaxUint64`. */
  lemma {:induction false} ScanDigitsSyntax(s: string, n: nat)
    requires n <= MaxUint64
    ensures ScanDigits(s, n) == Err(ErrSyntax) <==> !AllDigits(s) && Accumulate(n, LeadingDigits(s)) <= MaxUint64
  {
    if |s| > 0 && IsDigit(s[0]) {
      var t := LeadingDigits(s);
      assert t == [s[0]] + LeadingDigits(s[1..]);
      assert t[1..] == LeadingDigits(s[1..]);
      AccumulateGrows(n, t);
      if n < Cutoff && n * 10 + DigitValue(s[0]) <= MaxUint64 {
        ScanDigitsSyntax(s[1..], n * 10 + DigitValue(s[0]));
        assert AllDigits(s) <==> AllDigits(s[1..]);
      }
    } else if |s| > 0 {
      assert LeadingDigits(s) == [];
    }
  }

  /** `ParseInt` meets the contract stated on `Atoi`. */
  lemma ParseIntSpec(s: string)
    ensures ParseInt(s).Ok? <==> WellFormed(s) && MinInt <= SignedValue(s) <= MaxInt
    ensures ParseInt(s).Ok? ==> ParseInt(s).value == SignedValue(s)
    ensures ParseInt(s) == Err(ErrSyntax) <==>
      !WellFormed(s) && DigitsValue(LeadingDigits(Magnitude(s))) <= MaxUint64
  {
    var m := Magnitude(s);
    AccumulateIsValue(LeadingDigits(m));
    if |m| == 0 {
      assert LeadingDigits(m) == [];
    } else {
      ScanDigitsOk(m, 0);
      ScanDigitsSyntax(m, 0);
      if AllDigits(m) {
        AccumulateIsValue(m);
      }
    }
  }

  /** A string of `k` digits has a value below `10^k`. */
  lemma {:induction false} DigitsValueBound(s: string)
    requires AllDigits(s)
    ensures DigitsValue(s) < Pow10(|s|)
  {
    if |s| > 0 {
      DigitsValueBound(s[..|s| - 1]);
    }
  }

  function Pow10(k: nat): nat {
    if k == 0 then 1 else 10 * Pow10(k - 1)
  }

  lemma {:induction false} Pow10Add(a: nat, b: nat)
    ensures Pow10(a + b) == Pow10(a) * Pow10(b)
  {
    if b > 0 {
      Pow10Add(a, b - 1);
    }
  }

  lemma {:induction false} Pow10Grows(a: nat, b: nat)
    requires a <= b
    ensures Pow10(a) <= Pow10(b)
  {
    if a < b {
      Pow10Grows(a, b - 1);
    }
  }

  /** The fast path gives what `ParseInt` gives: below 19 bytes no digit
      run can pass `10^18 - 1`, far from either overflow. */
  lemma SmallAtoiAgrees(s: string)
    requires 0 < |s| < 19
    ensures SmallAtoi(s) == ParseInt(s)
  {
    var m := Magnitude(s);
    var t := LeadingDigits(m);
    Pow10Add(9, 9);
    assert Pow10(9) == 1_000_000_000;
    DigitsValueBound(t);
    Pow10Grows(|t|, 18);
    ParseIntSpec(s);
    if |m| > 0 && AllDigits(m) {
      assert t == m;
    }
  }

  /** A digit run that has already passed `MaxUint64` makes a range error,
      whatever byte follows: `ParseUint` stops before it reads that byte. */
  lemma OverflowBeforeSyntax(t: string, c: char)
    requires AllDigits(t) && DigitsValue(t) > MaxUint64 && !IsDigit(c)
    ensures !WellFormed(t + [c])
    ensures Atoi(t + [c]) == Err(ErrRange)
    ensures !IsSign(c) ==> Atoi([c] + t) == Err(ErrSyntax)
    ensures IsSign(c) ==> Atoi([c] + t) == Err(ErrRange)
  {
    var s := t + [c];
    assert |t| > 0;
    assert !IsSign(t[0]);
    assert Magnitude(s) == s;
    assert !IsDigit(s[|t|]);
    assert FirstNonDigit(s) == |t| by {
      FirstNonDigitIs(s, |t|);
    }
    assert LeadingDigits(s) == t;
    assert DigitsValue(LeadingDigits(Magnitude(s))) > MaxUint64;
    assert !AllDigits(Magnitude(s));
    OtherErrorIsRange(Atoi(s));
    if !IsSign(c) {
      assert Magnitude([c] + t) == [c] + t;
      assert LeadingDigits([c] + t) == [];
    } else {
      assert Magnitude([c] + t) == t;
      OtherErrorIsRange(Atoi([c] + t));
    }
  }

  lemma FirstNonDigitIs(s: string, k: nat)
    requires k < |s| && AllDigits(s[..k]) && !IsDigit(s[k])
    ensures FirstNonDigit(s) == k
  {
  }

  /** Twenty nines then a letter: a range error, not a syntax error. */
  lemma TwentyNinesThenLetter()
    ensures Atoi(Digits(99999999999999999999) + "x") == Err(ErrRange)
  {
    DigitsValueOfDigits(99999999999999999999);
    OverflowBeforeSyntax(Digits(99999999999999999999), 'x');
  }
}
