/** `get_historical_fact`: the birthday message's "fun historical fact",
    fetched from the numbers service, with its two fallback sentences. The
    HTTP exchange is an input: `fetch` maps the request URL to its outcome. */
module Facts {
  import opened Text
  import opened Dates

  /** What the request to the facts service gave: a status and a body, or
      an exception (no connection, a body that cannot be decoded). */
  datatype HttpOutcome = Response(status: int, body: string) | RequestError

  const MonthNames: seq<string> :=
    ["", "January", "February", "March", "April", "May", "June",
     "July", "August", "September", "October", "November", "December"]

  /** Returned when anything in the fetch raises. */
  const ErrorFallback: string := "Today is a special day in history - it's your birthday! \U{1F382}"

  /** Returned when the service answers with a status other than 200. */
  function StatusFallback(monthName: string, day: string): string
  {
    "On " + monthName + " " + day + ", history was made - just like today with your birthday!"
  }

  function FactUrl(month: string, day: string): string
  {
    "http://numbersapi.com/" + month + "/" + day + "/date"
  }

  /** Unpack `date.split('/')` into month and day, `int(month)` and index the
      month-name table, then ask the service; each step that raises in the
      source yields `ErrorFallback`. */
  function HistoricalFact(date: string, fetch: string -> HttpOutcome): string
  {
    var parts := Split(date, '/');
    if |parts| != 2 then ErrorFallback
    else
      match ParseInt(parts[0])
      case None => ErrorFallback
      case Some(n) =>
        if n >= |MonthNames| then ErrorFallback
        else
          match fetch(FactUrl(parts[0], parts[1]))
          case RequestError => ErrorFallback
          case Response(status, body) =>
            if status == 200 then body else StatusFallback(MonthNames[n], parts[1])
  }

  /** The text after the separator of a stored date: the day, with the
      trailing newline the pattern lets through, if any. */
  function DayPart(date: string): (d: string)
    requires IsValidDate(date)
    ensures d == DayText(date) || d == DayText(date) + "\n"
  {
    date[SeparatorIndex(date) + 1..]
  }

  /** A stored date splits on `/` into its month text and its day part. */
  lemma StoredDateSplits(date: string)
    requires IsStoredDate(date)
    ensures Split(date, '/') == [MonthText(date), DayPart(date)]
  {
    var k := SeparatorIndex(date);
    assert date == MonthText(date) + ['/'] + DayPart(date);
    SplitAtSeparator(MonthText(date), DayPart(date), '/');
  }

  /** For a stored date the month index stays within the table (never the
      empty entry 0) and the only outcomes are the service's own text on
      200, the month-and-day sentence on another status, and the generic
      sentence when the request raises. */
  lemma StoredDateFact(date: string, fetch: string -> HttpOutcome)
    requires IsStoredDate(date)
    ensures 1 <= MonthOf(date) < |MonthNames| && MonthNames[MonthOf(date)] != ""
    ensures var outcome := fetch(FactUrl(MonthText(date), DayPart(date)));
      var fact := HistoricalFact(date, fetch);
      && (outcome.Response? && outcome.status == 200 ==> fact == outcome.body)
      && (outcome.Response? && outcome.status != 200 ==>
            fact == StatusFallback(MonthNames[MonthOf(date)], DayPart(date)))
      && (outcome.RequestError? ==> fact == ErrorFallback)
  {
    StoredDateSplits(date);
  }

  /** On today's own string (the only dates the scheduler selects) the
      request goes to `/{month}/{day}/date` with today's numbers, and the
      non-200 sentence names the month in words. */
  lemma TodayStringFact(month: nat, day: nat, fetch: string -> HttpOutcome)
    requires 1 <= month <= 12 && 1 <= day <= 31
    ensures var outcome := fetch(FactUrl(NatToString(month), NatToString(day)));
      var fact := HistoricalFact(TodayString(month, day), fetch);
      && (outcome.Response? && outcome.status == 200 ==> fact == outcome.body)
      && (outcome.Response? && outcome.status != 200 ==>
            fact == StatusFallback(MonthNames[month], NatToString(day)))
      && (outcome.RequestError? ==> fact == ErrorFallback)
  {
    var s := TodayString(month, day);
    TodayStringIsStoredDate(month, day);
    TodayMatchIsCanonical(s, month, day);
    StoredDateFact(s, fetch);
    CanonicalIsTodayString(s);
    assert MonthText(s) == NatToString(month) && DayPart(s) == NatToString(day) by {
      NatToStringParse(MonthText(s));
      NatToStringParse(DayText(s));
    }
  }

  /** The fallback in a concrete case: on 6/1 with a non-200 answer the fact
      is the sentence about June 1, not the service's body. */
  lemma FallbackExample(fetch: string -> HttpOutcome)
    requires fetch("http://numbersapi.com/6/1/date") == Response(404, "Not Found")
    ensures HistoricalFact("6/1", fetch) == StatusFallback("June", "1")
  {
    assert NatToString(6) == "6" && NatToString(1) == "1";
    assert TodayString(6, 1) == "6/1";
    assert FactUrl("6", "1") == "http://numbersapi.com/6/1/date";
    TodayStringFact(6, 1, fetch);
    assert MonthNames[6] == "June";
  }
}
