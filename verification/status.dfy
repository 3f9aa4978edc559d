/** The Status enum of src/types.h and the status part of class Response:
    what SetStatus stores and what the getters answer. */
module Statuses {
  import opened Wrappers
  import opened Text

  // ---------------------------------------------------------------------
  // The Status enum

  const OK: int := 200
  const PARTIAL: int := 206
  const UNAUTHORIZED: int := 401
  const INVALID_FORMAT: int := 402
  const HASH_DIFFERENT: int := 403
  const INVALID_LANGUAGE: int := 404
  const MISSING_PARAMS: int := 405
  const NO_SESSION: int := 406
  const DOWNLOAD_LIMIT: int := 407
  const INVALID_PARAMS: int := 408
  const METHOD_NOT_FOUND: int := 409
  const UNKNOWN_ERROR: int := 410
  const INVALID_USERAGENT: int := 411
  const FORMAT_FORMAT: int := 412
  const TEMPORARY_DOWN: int := 501
  const UNAVAILABLE: int := 503
  const MOVED: int := 301

  /** The named enumerators. */
  const StatusCodes: set<int> :=
    {200, 206, 401, 402, 403, 404, 405, 406, 407, 408, 409, 410, 411, 412, 501, 503, 301}

  // ---------------------------------------------------------------------
  // Response: the status part

  /** The fields of class Response: `status` is what GetStatus() answers,
      `message` what StatusMessage() answers, `seconds` what Duration()
      answers.  The status is the integer the message starts with, cast to
      the enum without a range check. */
  datatype Status = Status(status: Int32, message: string, seconds: real)

  /** Response::SetStatus: keep the message and the seconds, and parse the
      status with std::stoi, which raises when the message does not start
      with an integer that fits an `int`. */
  function SetStatus(message: string, seconds: real): (r: Result<Status>)
    ensures r.Ok? <==> Stoi(message).Ok?
    ensures r.Err? ==> r.error == Stoi(message).error
    ensures r.Ok? ==> r.value.status == Stoi(message).value
    ensures r.Ok? ==> r.value.message == message && r.value.seconds == seconds
  {
    var code :- Stoi(message);
    Ok(Status(code, message, seconds))
  }

  /** A message that starts with the decimal form of a code stores that code,
      whatever text follows it. */
  lemma SetStatusReadsCode(code: Int32, rest: string, seconds: real)
    requires |rest| == 0 || !IsDigit(rest[0])
    ensures SetStatus(ToDecimal(code) + rest, seconds) == Ok(Status(code, ToDecimal(code) + rest, seconds))
  {
    StoiReadsDecimal(code, rest);
  }

  /** The value of a three-digit run. */
  lemma ThreeDigitsValue(a: char, b: char, c: char)
    requires IsDigit(a) && IsDigit(b) && IsDigit(c)
    ensures DigitsValue([a, b, c]) == 100 * (a as int - '0' as int) + 10 * (b as int - '0' as int) + (c as int - '0' as int)
  {
    assert [a, b, c][..2] == [a, b] && [a, b][..1] == [a] && [a][..0] == [];
    assert DigitsValue([a]) == a as int - '0' as int;
    assert DigitsValue([a, b]) == 10 * DigitsValue([a]) + (b as int - '0' as int);
    assert DigitsValue([a, b, c]) == 10 * DigitsValue([a, b]) + (c as int - '0' as int);
  }

  /** std::stoi of a status line that starts with three digits. */
  lemma StoiOfStatusLine(a: char, b: char, c: char, rest: string)
    requires IsDigit(a) && IsDigit(b) && IsDigit(c)
    requires |rest| == 0 || !IsDigit(rest[0])
    ensures Stoi([a, b, c] + rest) == Ok(100 * (a as int - '0' as int) + 10 * (b as int - '0' as int) + (c as int - '0' as int))
  {
    var ds, u := [a, b, c], [a, b, c] + rest;
    assert AllDigits(ds);
    ThreeDigitsValue(a, b, c);
    assert DigitsValue(ds) < 1000;
    RunOfDigitsThenRest(ds, rest);
    StoiDigitsOfRun(u, ds, false);
    assert StoiDigits(u, false) == Ok(DigitsValue(ds));
    StoiOfDigitFirst(u);
  }

  /** The success line the server sends stores OK. */
  lemma SetStatusOfOkLine(seconds: real)
    ensures SetStatus("200 OK", seconds) == Ok(Status(OK, "200 OK", seconds))
  {
    assert "200 OK" == ['2', '0', '0'] + " OK";
    StoiOfStatusLine('2', '0', '0', " OK");
  }

  /** A refused login line stores UNAUTHORIZED. */
  lemma SetStatusOfUnauthorizedLine(seconds: real)
    ensures SetStatus("401 Unauthorized", seconds) == Ok(Status(UNAUTHORIZED, "401 Unauthorized", seconds))
  {
    assert "401 Unauthorized" == ['4', '0', '1'] + " Unauthorized";
    StoiOfStatusLine('4', '0', '1', " Unauthorized");
  }

  /** The message "" that s() answers for an absent status, and any message
      with no leading integer, raise std::invalid_argument. */
  lemma SetStatusRejectsText(message: string, seconds: real)
    requires NoLeadingInteger(message)
    ensures SetStatus(message, seconds) == Err(InvalidArgument)
  {
    StoiRejectsNonNumeric(message);
  }

  /** The parsed integer is stored without checking it against the named
      codes: 302 lies within the enum's range of values (0..511) but names
      none of them. */
  lemma SetStatusKeepsUnknownCodes(seconds: real)
    ensures 302 !in StatusCodes
    ensures SetStatus("302 Found", seconds) == Ok(Status(302, "302 Found", seconds))
  {
    assert 302 !in StatusCodes;
    assert "302 Found" == ['3', '0', '2'] + " Found";
    StoiOfStatusLine('3', '0', '2', " Found");
  }
}
