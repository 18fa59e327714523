/**
 * The error taxonomy of the API: a closed set of error kinds, each mapped to a
 * numeric code, a message prefix and a retriable flag, and the text an error
 * displays as.
 */
module Errors {
  import opened Wrappers
  import opened Integers
  import Decimal

  datatype ErrorKind =
    | DBError(message: string)
    | InvalidInput(message: string)
    | InternalError(message: string)
    | NotImplemented(message: string)

  /** The error value every failing operation returns. */
  datatype Error = Error(code: u32, message: string, retriable: bool)

  const DB_PREFIX := "DB Error: "
  const INVALID_PREFIX := "Invalid Input: "
  const INTERNAL_PREFIX := "Internal Error: "
  // Written as a concatenation: the verifier can read the characters of the
  // parts, but not those of one literal this long.
  const NOT_IMPLEMENTED_PREFIX := "Sorry!" + " Please wait a bit, we are working on that: "

  predicate StartsWith(s: string, prefix: string) {
    |prefix| <= |s| && s[..|prefix|] == prefix
  }

  /** `Error::from_error_kind`. */
  function FromErrorKind(k: ErrorKind): (e: Error)
    ensures e.code == 400 || e.code == 500
    ensures e.code == 400 <==> k.InvalidInput?
    ensures e.retriable <==> !k.InvalidInput?
    ensures |k.message| < |e.message| && e.message[|e.message| - |k.message|..] == k.message
  {
    match k
    case DBError(m) => Error(500, DB_PREFIX + m, true)
    case InvalidInput(m) => Error(400, INVALID_PREFIX + m, false)
    case InternalError(m) => Error(500, INTERNAL_PREFIX + m, true)
    case NotImplemented(m) => Error(500, NOT_IMPLEMENTED_PREFIX + m, true)
  }

  /** Recovers the kind an error was built from, by its code, flag and message prefix. */
  function ToErrorKind(e: Error): Option<ErrorKind> {
    if e.code == 400 && !e.retriable && StartsWith(e.message, INVALID_PREFIX) then
      Some(InvalidInput(e.message[|INVALID_PREFIX|..]))
    else if e.code == 500 && e.retriable && StartsWith(e.message, DB_PREFIX) then
      Some(DBError(e.message[|DB_PREFIX|..]))
    else if e.code == 500 && e.retriable && StartsWith(e.message, INTERNAL_PREFIX) then
      Some(InternalError(e.message[|INTERNAL_PREFIX|..]))
    else if e.code == 500 && e.retriable && StartsWith(e.message, NOT_IMPLEMENTED_PREFIX) then
      Some(NotImplemented(e.message[|NOT_IMPLEMENTED_PREFIX|..]))
    else None
  }

  /** No information is lost: the kind and its message can be read back from the error. */
  lemma FromErrorKindInverse(k: ErrorKind)
    ensures ToErrorKind(FromErrorKind(k)) == Some(k)
  {
    var e := FromErrorKind(k);
    match k
    case DBError(m) =>
      assert e.message[..|DB_PREFIX|] == DB_PREFIX;
      assert e.message[|DB_PREFIX|..] == m;
    case InvalidInput(m) =>
      assert e.message[..|INVALID_PREFIX|] == INVALID_PREFIX;
      assert e.message[|INVALID_PREFIX|..] == m;
    case InternalError(m) =>
      assert e.message[0] == 'I' != DB_PREFIX[0];
      assert e.message[..|INTERNAL_PREFIX|] == INTERNAL_PREFIX;
      assert e.message[|INTERNAL_PREFIX|..] == m;
    case NotImplemented(m) =>
      assert NOT_IMPLEMENTED_PREFIX[0] == 'S';
      assert e.message[0] == 'S';
      assert e.message[0] != DB_PREFIX[0] && e.message[0] != INTERNAL_PREFIX[0];
      assert e.message[..|NOT_IMPLEMENTED_PREFIX|] == NOT_IMPLEMENTED_PREFIX;
      assert e.message[|NOT_IMPLEMENTED_PREFIX|..] == m;
  }

  /** Different kinds (or messages) never give the same error. */
  lemma FromErrorKindInjective(k1: ErrorKind, k2: ErrorKind)
    requires FromErrorKind(k1) == FromErrorKind(k2)
    ensures k1 == k2
  {
    FromErrorKindInverse(k1);
    FromErrorKindInverse(k2);
  }

  /** The full table: code, message prefix and retriable flag of each kind. */
  lemma FromErrorKindTable(m: string)
    ensures FromErrorKind(DBError(m)) == Error(500, "DB Error: " + m, true)
    ensures FromErrorKind(InvalidInput(m)) == Error(400, "Invalid Input: " + m, false)
    ensures FromErrorKind(InternalError(m)) == Error(500, "Internal Error: " + m, true)
    ensures FromErrorKind(NotImplemented(m))
         == Error(500, "Sorry!" + " Please wait a bit, we are working on that: " + m, true)
  {
  }

  /**
   * The blanket `From<T> for Error` where `T: Into<ErrorKind>`: `into` is the
   * value's conversion to an error kind.
   */
  function IntoError<T>(x: T, into: T -> ErrorKind): (e: Error)
    ensures ToErrorKind(e) == Some(into(x))
  {
    FromErrorKindInverse(into(x));
    FromErrorKind(into(x))
  }

  const RETRIABLE_TAG := " (retriable)"

  /** What `Display` writes after the code: the retriable tag, if any, then the message. */
  function Suffix(e: Error): (t: string)
    ensures |t| > 0 && !Decimal.IsDigit(t[0])
  {
    (if e.retriable then RETRIABLE_TAG else "") + ": " + e.message
  }

  /** `Display for Error`: `Error #<code>[ (retriable)]: <message>`. */
  function Display(e: Error): (s: string)
    ensures StartsWith(s, "Error #")
    ensures s[7..] == Decimal.NatToString(e.code) + Suffix(e)
  {
    "Error #" + Decimal.NatToString(e.code) + Suffix(e)
  }

  /** The suffix determines the retriable flag and the message. */
  lemma SuffixInjective(e1: Error, e2: Error)
    requires Suffix(e1) == Suffix(e2)
    ensures e1.retriable == e2.retriable && e1.message == e2.message
  {
    var t := Suffix(e1);
    assert t[0] == (if e1.retriable then ' ' else ':');
    assert t[0] == (if e2.retriable then ' ' else ':');
    var n := if e1.retriable then |RETRIABLE_TAG| + 2 else 2;
    assert e1.message == t[n..] == e2.message;
  }

  /** The number of leading decimal digits of `s`. */
  function DigitRun(s: string): nat {
    if s != [] && Decimal.IsDigit(s[0]) then 1 + DigitRun(s[1..]) else 0
  }

  lemma {:induction false} DigitRunOf(a: string, x: string)
    requires Decimal.AllDigits(a) && |x| > 0 && !Decimal.IsDigit(x[0])
    ensures DigitRun(a + x) == |a|
  {
    if a != [] {
      assert (a + x)[1..] == a[1..] + x;
      DigitRunOf(a[1..], x);
    }
  }

  /** Digits followed by a non-digit: the digit run, and so the number, is determined. */
  lemma {:induction false} NumberThenText(a: nat, b: nat, x: string, y: string)
    requires Decimal.NatToString(a) + x == Decimal.NatToString(b) + y
    requires |x| > 0 && !Decimal.IsDigit(x[0]) && |y| > 0 && !Decimal.IsDigit(y[0])
    ensures a == b && x == y
  {
    var A, B := Decimal.NatToString(a), Decimal.NatToString(b);
    var s := A + x;
    DigitRunOf(A, x);
    DigitRunOf(B, y);
    assert A == s[..|A|];
    assert B == s[..|B|];
    assert x == s[|A|..] == y;
  }

  /** Two errors that display the same are the same error. */
  lemma DisplayInjective(e1: Error, e2: Error)
    requires Display(e1) == Display(e2)
    ensures e1 == e2
  {
    assert Display(e1)[7..] == Display(e2)[7..];
    NumberThenText(e1.code, e2.code, Suffix(e1), Suffix(e2));
    SuffixInjective(e1, e2);
  }
}
