/**
 * The small part of JavaScript's runtime semantics that the posts core leans on:
 * optional values, thrown HTTP exceptions, truthiness of request values, and the
 * decimal text of integer numbers (Number.prototype.toString and Number(string)).
 */
module Js {

  datatype Option<+T> = None | Some(value: T)

  /** The exceptions the core throws, standing for the framework's HttpException
      subclasses and for the TypeError of a property read on `undefined`. */
  datatype HttpException =
    | NotFoundException
    | BadRequestException(message: string)
    | TypeError

  /** A returned value or a thrown exception. */
  datatype Result<+T> = Ok(value: T) | Err(error: HttpException)

  /** A value held by a request object: a number, a string, or `undefined`. */
  datatype Value = Undefined | Num(n: int) | Str(s: string)

  /** JavaScript truthiness: `undefined`, `0` and `""` are falsy. */
  predicate Truthy(v: Value) {
    match v
    case Undefined => false
    case Num(n) => n != 0
    case Str(s) => s != ""
  }

  /** Truthiness of an optional string parameter (`title?: string`). */
  predicate TruthyString(o: Option<string>) {
    o.Some? && o.value != ""
  }

  function DigitChar(d: nat): (c: char)
    requires d < 10
    ensures '0' <= c <= '9'
  {
    "0123456789"[d]
  }

  function DigitValue(c: char): nat
  {
    if '0' <= c <= '9' then (c as int - '0' as int) as nat else 0
  }

  /** Decimal digits of a natural number, most significant first. */
  function NatToString(n: nat): (s: string)
    ensures |s| > 0 && '0' <= s[0] <= '9'
    decreases n
  {
    if n < 10 then [DigitChar(n)] else NatToString(n / 10) + [DigitChar(n % 10)]
  }

  /** The text `String(n)` gives for an integer number: its decimal digits,
      with a leading '-' when it is negative. */
  function IntToString(n: int): string
  {
    if n < 0 then "-" + NatToString(-n) else NatToString(n)
  }

  /** The value of a string of decimal digits. */
  function DigitsValue(s: string): nat
  {
    if s == [] then 0 else DigitsValue(s[..|s| - 1]) * 10 + DigitValue(s[|s| - 1])
  }

  /** `Number(s)` on an optionally signed decimal integer. */
  function ParseInt(s: string): int
  {
    if |s| > 0 && s[0] == '-' then 0 - DigitsValue(s[1..]) else DigitsValue(s)
  }

  /** The text of a value when it is appended to a query string (`String(v)`). */
  function ToQueryString(v: Value): string
  {
    match v
    case Undefined => "undefined"
    case Num(n) => IntToString(n)
    case Str(s) => s
  }

  lemma {:induction false} NatToStringRoundTrip(n: nat)
    ensures DigitsValue(NatToString(n)) == n
    decreases n
  {
    if n >= 10 {
      var s := NatToString(n);
      NatToStringRoundTrip(n / 10);
      assert s[..|s| - 1] == NatToString(n / 10);
    }
  }

  /** Reading back the decimal text of an integer gives the integer. */
  lemma IntToStringRoundTrip(n: int)
    ensures ParseInt(IntToString(n)) == n
  {
    if n < 0 {
      NatToStringRoundTrip(-n);
      assert ("-" + NatToString(-n))[1..] == NatToString(-n);
    } else {
      NatToStringRoundTrip(n);
    }
  }
}
