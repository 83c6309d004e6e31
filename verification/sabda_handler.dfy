/**
 * `SABDAHandler.GetContent`: validate the `year` and `date` query
 * parameters in order, call the service, and choose the status code.
 * The query is its two values (an absent parameter reads as `""`), the
 * current year and the clock are parameters, and the service is a
 * function from the parsed year and the date to its response and error.
 */
module SabdaHandler {
  import opened Wrappers
  import opened Text
  import opened Models
  import opened Decimal

  /** A status code and the JSON body. */
  datatype Reply = Reply(status: int, body: APIResponse)

  const YearRequired: string := "Year parameter is required (e.g., ?year=2025)"
  const DateRequired: string := "Date parameter is required in MMDD format (e.g., ?date=0902)"

  /** `joinStrings`: the pieces with the separator between each two. */
  method JoinStrings(strs: seq<string>, separator: string) returns (result: string)
    ensures result == Join(strs, separator)
    ensures |strs| == 0 ==> result == ""
    ensures |strs| == 1 ==> result == strs[0]
  {
    if |strs| == 0 {
      return "";
    }
    if |strs| == 1 {
      return strs[0];
    }
    result := strs[0];
    assert strs[..1] == [strs[0]];
    var i := 1;
    while i < |strs|
      invariant 1 <= i <= |strs|
      invariant result == Join(strs[..i], separator)
    {
      JoinSnoc(strs[..i], strs[i], separator);
      assert strs[..i + 1] == strs[..i] + [strs[i]];
      result := result + separator + strs[i];
      i := i + 1;
    }
    assert strs[..i] == strs;
  }

  /** The messages for the parameters that are missing, year first. */
  function Missing(yearStr: string, date: string): (ms: seq<string>)
    ensures |ms| <= 2
    ensures YearRequired in ms <==> yearStr == ""
    ensures DateRequired in ms <==> date == ""
    ensures ms == [] <==> yearStr != "" && date != ""
  {
    (if yearStr == "" then [YearRequired] else []) + (if date == "" then [DateRequired] else [])
  }

  /** `^\d{4}$` under RE2: exactly four ASCII digits, `$` being the end of the text. */
  predicate FourDigits(date: string) {
    |date| == 4 && AllDigits(date)
  }

  /** A validation failure: 400 with the message and the `ValidationError` metadata. */
  function Invalid(message: string, extra: map<string, JsonValue>): Reply {
    Reply(400, APIResponse("error", message, None, Fields(extra["error_type" := JStr("ValidationError")])))
  }

  /** The parameters as the handler checks them, in order: each failure gives 400 and stops. */
  function Validate(yearStr: string, date: string, currentYear: int): (r: Result<(int, string), Reply>)
    ensures r.Ok? ==> r.value.1 == date && FourDigits(date) && Atoi(yearStr) == Some(r.value.0)
    ensures r.Ok? ==> 2000 <= r.value.0 <= currentYear + 1
    ensures r.Err? ==> r.error.status == 400 && r.error.body.status == "error"
    ensures r.Ok? <==>
      && yearStr != "" && date != "" && Atoi(yearStr).Some?
      && 2000 <= Atoi(yearStr).value <= currentYear + 1
      && FourDigits(date)
      && 1 <= DigitsValue(date[..2]) <= 12 && 1 <= DigitsValue(date[2..]) <= 31
  {
    var missing := Missing(yearStr, date);
    if missing != [] then
      Err(Invalid(Join(missing, "; "), map[]))
    else if Atoi(yearStr).None? then
      Err(Invalid("Year must be a valid integer", map["provided_year" := JStr(yearStr)]))
    else
      var year := Atoi(yearStr).value;
      if year < 2000 || year > currentYear + 1 then
        Err(Invalid("Year must be between 2000 and " + IntString(currentYear + 1),
                    map["provided_year" := JInt(year)]))
      else if !FourDigits(date) then
        Err(Invalid("Date must be in MMDD format (e.g., 0902 for September 2nd)",
                    map["provided_date" := JStr(date)]))
      else
        var month := Atoi(date[..2]);
        var day := Atoi(date[2..]);
        ParseTwoDigits(date[..2]);
        ParseTwoDigits(date[2..]);
        if month.None? || day.None? || month.value < 1 || month.value > 12 || day.value < 1 || day.value > 31 then
          Err(Invalid("Invalid date. Month must be 01-12, day must be 01-31",
                      map["provided_date" := JStr(date)]))
        else Ok((year, date))
  }

  /** Two ASCII digits always parse, so the handler's parse-error test on month and day never fires. */
  lemma ParseTwoDigits(s: string)
    requires |s| == 2 && AllDigits(s)
    ensures Atoi(s) == Some(DigitsValue(s)) && DigitsValue(s) <= 99
  {
    var h := s[..1];
    assert h[..|h| - 1] == [];
    assert DigitsValue(h) == DigitValue(s[0]);
    assert DigitsValue(s) == 10 * DigitValue(s[0]) + DigitValue(s[1]);
  }

  /** Both missing parameters are reported in one message, year first. */
  lemma BothMissing(currentYear: int)
    ensures Validate("", "", currentYear) == Err(Invalid(YearRequired + "; " + DateRequired, map[]))
  {
    var ms := [YearRequired, DateRequired];
    assert Missing("", "") == ms;
    assert ms[1..] == [DateRequired];
    assert Join(ms, "; ") == YearRequired + "; " + DateRequired;
  }

  /** Months and days are checked separately: 31 February passes. */
  lemma NoCalendarCheck(currentYear: int)
    requires currentYear >= 2024
    ensures Validate("2024", "0231", currentYear) == Ok((2024, "0231"))
  {
    Year2024();
    Date0231();
  }

  lemma Year2024()
    ensures Atoi("2024") == Some(2024)
  {
    assert IntString(2024) == "2024";
    ParsePrinted(2024);
  }

  lemma Date0231()
    ensures FourDigits("0231") && DigitsValue("0231"[..2]) == 2 && DigitsValue("0231"[2..]) == 31
  {
    assert "0231"[..2] == "02" && "0231"[2..] == "31";
    ParseTwoDigits("02");
    ParseTwoDigits("31");
  }

  /** What the service returns: its response, and its error when there is one. */
  datatype ServiceResult = ServiceResult(response: APIResponse, error: Option<string>)

  /**
   * `GetContent`: validation, then the service. A service error is 500
   * with a `ServerException` body; otherwise the scraping metadata gets
   * the authentication fields, and the status is 200 for `"success"`, 500
   * for anything else.
   */
  function GetContent(yearStr: string, date: string, currentYear: int, clientIP: string, localsIP: string,
                      now: int, serve: (int, string) -> ServiceResult): (r: Reply)
    ensures r.status in {200, 400, 500}
    ensures r.status == 400 <==> Validate(yearStr, date, currentYear).Err?
    ensures r.status == 200 ==> r.body.status == "success"
    ensures Validate(yearStr, date, currentYear).Ok? ==>
      var (y, d) := Validate(yearStr, date, currentYear).value;
      r.status == 200 <==> serve(y, d).error.None? && serve(y, d).response.status == "success"
  {
    match Validate(yearStr, date, currentYear)
    case Err(reply) => reply
    case Ok((year, d)) =>
      var result := serve(year, d);
      if result.error.Some? then
        Reply(500, APIResponse("error", "Internal server error occurred", None,
                               Fields(map["error_type" := JStr("ServerException"),
                                          "client_ip" := JStr(localsIP),
                                          "timestamp" := JTime(now)])))
      else
        var resp := result.response;
        var body := if resp.metadata.Scraping? then
            resp.(metadata := resp.metadata.(authenticated := true, authMethod := "JWT",
                                             clientIP := clientIP, requestTimestamp := now))
          else resp;
        Reply(if body.status == "success" then 200 else 500, body)
  }

  /** Invalid parameters never reach the service: the reply is the same whatever it would do. */
  lemma InvalidSkipsService(yearStr: string, date: string, currentYear: int, clientIP: string, localsIP: string,
                            now: int, serve: (int, string) -> ServiceResult, other: (int, string) -> ServiceResult)
    requires Validate(yearStr, date, currentYear).Err?
    ensures GetContent(yearStr, date, currentYear, clientIP, localsIP, now, serve) ==
            GetContent(yearStr, date, currentYear, clientIP, localsIP, now, other)
  {
  }

  /** A valid request with a successful service answer is 200 and carries the service's data. */
  lemma SuccessPassesThrough(yearStr: string, date: string, currentYear: int, clientIP: string, localsIP: string,
                             now: int, serve: (int, string) -> ServiceResult)
    requires Validate(yearStr, date, currentYear).Ok?
    requires var (y, d) := Validate(yearStr, date, currentYear).value;
      serve(y, d).error.None? && serve(y, d).response.status == "success"
    ensures var r := GetContent(yearStr, date, currentYear, clientIP, localsIP, now, serve);
      var (y, d) := Validate(yearStr, date, currentYear).value;
      && r.status == 200 && r.body.data == serve(y, d).response.data
      && (r.body.metadata.Scraping? ==> r.body.metadata.authenticated && r.body.metadata.clientIP == clientIP)
  {
  }
}
