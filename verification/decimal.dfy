/**
 * Decimal text for integers: `to_string` of Rust's integer types and
 * `str::parse` (Rust core's `FromStr` for integers, radix 10).
 */
module Decimal {
  import opened Wrappers

  predicate IsDigit(c: char) {
    '0' <= c <= '9'
  }

  function DigitValue(c: char): (d: nat)
    requires IsDigit(c)
    ensures d < 10
  {
    c as int - '0' as int
  }

  function DigitChar(d: nat): (c: char)
    requires d < 10
    ensures IsDigit(c) && DigitValue(c) == d
  {
    ('0' as int + d) as char
  }

  predicate AllDigits(s: string) {
    forall i :: 0 <= i < |s| ==> IsDigit(s[i])
  }

  /** The number a string of decimal digits denotes (leading zeros allowed). */
  function Value(s: string): nat
    requires AllDigits(s)
  {
    if s == [] then 0 else 10 * Value(s[..|s| - 1]) + DigitValue(s[|s| - 1])
  }

  /** `n.to_string()` for an unsigned integer: the shortest digit string denoting `n`. */
  function NatToString(n: nat): (s: string)
    ensures |s| > 0 && AllDigits(s) && Value(s) == n
    ensures |s| > 1 ==> s[0] != '0'
  {
    if n < 10 then [DigitChar(n)]
    else
      var p := NatToString(n / 10);
      var s := p + [DigitChar(n % 10)];
      assert s[..|s| - 1] == p;
      s
  }

  /** `x.to_string()` for a signed integer. */
  function IntToString(x: int): (s: string)
    ensures |s| > 0
    ensures x >= 0 ==> s == NatToString(x)
    ensures x < 0 ==> s[0] == '-' && s[1..] == NatToString(-x)
  {
    if x < 0 then "-" + NatToString(-x) else NatToString(x)
  }

  /** The `IntErrorKind` of a failed integer parse. */
  datatype IntErrorKind = Empty | InvalidDigit | PosOverflow | NegOverflow

  /** The text `ParseIntError` displays for each kind. */
  function IntErrorMessage(k: IntErrorKind): string {
    match k
    case Empty => "cannot parse integer from empty string"
    case InvalidDigit => "invalid digit found in string"
    case PosOverflow => "number too large to fit in target type"
    case NegOverflow => "number too small to fit in target type"
  }

  /**
   * The digit loop of the parser: digits `d[i..]` are read left to right,
   * failing at the first character that is not a digit or at the first
   * prefix whose magnitude exceeds `bound`, whichever comes first.
   */
  function Scan(d: string, i: nat, bound: nat, overflow: IntErrorKind): Result<nat, IntErrorKind>
    requires i <= |d| && AllDigits(d[..i]) && Value(d[..i]) <= bound
    decreases |d| - i
  {
    if i == |d| then
      assert d[..i] == d;
      Success(Value(d))
    else if !IsDigit(d[i]) then
      Failure(InvalidDigit)
    else
      assert d[..i + 1][..i] == d[..i];
      if Value(d[..i + 1]) > bound then Failure(overflow)
      else Scan(d, i + 1, bound, overflow)
  }

  /**
   * `s.parse::<T>()` for an integer type with range `lo..=hi`: an optional
   * `+` (or `-` when `signed`) followed by at least one decimal digit.
   */
  function ParseInt(s: string, signed: bool, lo: int, hi: nat): (r: Result<int, IntErrorKind>)
    requires lo <= 0
    ensures r.Success? ==> lo <= r.value <= hi && Denotes(s, signed, r.value)
  {
    if s == [] then Failure(Empty)
    else if |s| == 1 && (s[0] == '+' || s[0] == '-') then Failure(InvalidDigit)
    else if s[0] == '+' then
      ScanResult(s[1..], 0, hi, PosOverflow);
      match Scan(s[1..], 0, hi, PosOverflow)
      case Success(v) => Success(v)
      case Failure(k) => Failure(k)
    else if s[0] == '-' && signed then
      ScanResult(s[1..], 0, -lo, NegOverflow);
      match Scan(s[1..], 0, -lo, NegOverflow)
      case Success(v) => Success(0 - v as int)
      case Failure(k) => Failure(k)
    else
      ScanResult(s, 0, hi, PosOverflow);
      match Scan(s, 0, hi, PosOverflow)
      case Success(v) => Success(v)
      case Failure(k) => Failure(k)
  }

  /**
   * `s` is an integer literal for `v`: an optional sign (`-` only when
   * `signed`) and a non-empty string of digits.
   */
  predicate Denotes(s: string, signed: bool, v: int) {
    if |s| > 0 && s[0] == '+' then
      |s| > 1 && AllDigits(s[1..]) && v == Value(s[1..])
    else if |s| > 0 && s[0] == '-' && signed then
      |s| > 1 && AllDigits(s[1..]) && v == 0 - Value(s[1..]) as int
    else
      |s| > 0 && AllDigits(s) && v == Value(s)
  }

  /** The value of a digit string is at least that of each of its prefixes. */
  lemma {:induction false} PrefixValue(d: string, j: nat)
    requires AllDigits(d) && j <= |d|
    ensures AllDigits(d[..j]) && Value(d[..j]) <= Value(d)
    decreases |d| - j
  {
    if j < |d| {
      PrefixValue(d, j + 1);
      assert d[..j + 1][..j] == d[..j];
    } else {
      assert d[..j] == d;
    }
  }

  /** The scan succeeds exactly on digit strings within the bound, with their value. */
  lemma {:induction false} ScanResult(d: string, i: nat, bound: nat, overflow: IntErrorKind)
    requires i <= |d| && AllDigits(d[..i]) && Value(d[..i]) <= bound
    ensures Scan(d, i, bound, overflow).Success? <==> AllDigits(d) && Value(d) <= bound
    ensures Scan(d, i, bound, overflow).Success? ==> Scan(d, i, bound, overflow).value == Value(d)
    ensures Scan(d, i, bound, overflow).Failure? ==> Scan(d, i, bound, overflow).error in {InvalidDigit, overflow}
    decreases |d| - i
  {
    if i == |d| {
      assert d[..i] == d;
    } else if !IsDigit(d[i]) {
      assert !AllDigits(d);
    } else {
      assert d[..i + 1][..i] == d[..i];
      if Value(d[..i + 1]) > bound {
        if AllDigits(d) {
          PrefixValue(d, i + 1);
        }
      } else {
        ScanResult(d, i + 1, bound, overflow);
      }
    }
  }

  /** A string parses to `v` exactly when it is a literal for `v` and `v` is in range. */
  lemma ParseIntAccepts(s: string, signed: bool, lo: int, hi: nat, v: int)
    requires lo <= 0
    ensures ParseInt(s, signed, lo, hi) == Success(v) <==> Denotes(s, signed, v) && lo <= v <= hi
  {
    if s != [] {
      if |s| == 1 && (s[0] == '+' || s[0] == '-') {
      } else if s[0] == '+' || (s[0] == '-' && signed) {
        ScanResult(s[1..], 0, if s[0] == '+' then hi else -lo, if s[0] == '+' then PosOverflow else NegOverflow);
      } else {
        ScanResult(s, 0, hi, PosOverflow);
      }
    }
  }

  /** Printing an in-range integer and parsing it back gives the integer. */
  lemma ParseIntToString(x: int, signed: bool, lo: int, hi: nat)
    requires lo <= 0 && lo <= x <= hi && (x < 0 ==> signed)
    ensures ParseInt(IntToString(x), signed, lo, hi) == Success(x)
  {
    var s := IntToString(x);
    if x < 0 {
      assert s[0] == '-' && s[1..] == NatToString(-x);
    } else {
      assert IsDigit(s[0]);
    }
    assert Denotes(s, signed, x);
    ParseIntAccepts(s, signed, lo, hi, x);
  }
}
