/** The exceptions that flow through the service and the route handlers. */
module Exceptions {

  /** A raised exception, by class: `ValueError`, FastAPI's `HTTPException`,
      or any other exception (an I/O error, for one). */
  datatype Exception =
    | ValueError(message: string)
    | HttpException(status: nat, detail: string)
    | OtherError(message: string)

  predicate IsDigit(c: char)
  {
    '0' <= c <= '9'
  }

  /** The value of one decimal digit. */
  function DigitValue(c: char): nat
  {
    if IsDigit(c) then c as int - '0' as int else 0
  }

  /** The value of a string of decimal digits, read as `int(s)` reads it. */
  function ParseDecimal(s: string): nat
    decreases |s|
  {
    if |s| == 0 then 0 else ParseDecimal(s[..|s| - 1]) * 10 + DigitValue(s[|s| - 1])
  }

  /** Decimal text of a natural number, as `str(int)` writes it: digits only,
      no leading zero, and reading it back gives the number. */
  function NatToString(n: nat): (s: string)
    ensures |s| > 0
    ensures forall i :: 0 <= i < |s| ==> IsDigit(s[i])
    ensures |s| > 1 ==> s[0] != '0'
    ensures ParseDecimal(s) == n
    decreases n
  {
    var d := ('0' as int + n % 10) as char;
    if n < 10 then
      [d]
    else
      var init := NatToString(n / 10);
      var s := init + [d];
      assert s[..|s| - 1] == init;
      s
  }

  /** `str(e)`: an `HTTPException` prints as "<status>: <detail>",
      every other exception as its message. */
  function ExceptionText(e: Exception): (text: string)
    ensures !e.HttpException? ==> text == e.message
    // the text ends in ": <detail>" after a decimal status that reads back as the status
    ensures e.HttpException? ==>
              var digits := |text| - |e.detail| - 2;
              && digits > 0
              && text[digits..] == ": " + e.detail
              && (forall i :: 0 <= i < digits ==> IsDigit(text[i]))
              && (digits > 1 ==> text[0] != '0')
              && ParseDecimal(text[..digits]) == e.status
  {
    match e
    case ValueError(m) => m
    case HttpException(s, d) =>
      var status := NatToString(s);
      var text := status + ": " + d;
      assert text[..|status|] == status;
      text
    case OtherError(m) => m
  }
}
