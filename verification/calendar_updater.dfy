/** The pure half of `calendar_updater.py`: reading the date and times the
    language model produced, and building the event body that is sent to
    the calendar service. Credentials, the service call and the time-zone
    localisation are external. */
module CalendarUpdater {
  import opened Wrappers
  import opened Text
  import opened JsonValue
  import opened Strptime

  /** The formats `parse_date` tries, in order. */
  const DateFormats: seq<Format> := [
    [Year, Lit('-'), Month, Lit('-'), Day],                   // "%Y-%m-%d"
    [WeekdayName, Lit(','), Spaces, MonthName, Spaces, Day],  // "%A, %B %d"
    [MonthName, Spaces, Day],                                 // "%B %d"
    [WeekdayName, Spaces, MonthName, Spaces, Day],            // "%A %B %d"
    [MonthName, Spaces, Day, Lit(','), Spaces, Year],         // "%B %d, %Y"
    [WeekdayName, Spaces, Day, Spaces, MonthName]             // "%A %d %B"
  ]

  /** The formats `parse_time` tries, in order. */
  const TimeFormats: seq<Format> := [
    [Hour12, Lit(':'), Minute, AmPm],                // "%I:%M%p"
    [Hour24, Lit(':'), Minute],                      // "%H:%M"
    [Hour24, Lit(':'), Minute, Lit(':'), Second]     // "%H:%M:%S"
  ]

  /** The exceptions `parse_date` and `parse_time` raise. */
  datatype ParseError =
    | ValueError(message: string)
    | AttributeError  // `.lower()` or `.strip()` called on a value that is not text

  /** What `parse_date` makes of its input before trying the formats:
      lower-cased, every "st", then every "nd", "rd" and "th" deleted, and
      title-cased. Month and weekday names that contain one of these pairs
      are mangled too. */
  function NormalizeDate(s: string): string {
    Title(Delete(Delete(Delete(Delete(Lower(s), "st"), "nd"), "rd"), "th"))
  }

  /** What `parse_time` matches: stripped, lower-cased, with every space
      (U+0020 only) removed. */
  function NormalizeTime(s: string): string {
    Delete(Lower(Strip(s)), " ")
  }

  /** A parsed year of 1900, the year `strptime` fills in when the format
      has none, becomes the current year; so does an explicit 1900. */
  function FillYear(d: Date, currentYear: int): (r: Date)
    ensures r.month == d.month && r.day == d.day
    ensures r.year == (if d.year == 1900 then currentYear else d.year)
  {
    if d.year == 1900 then d.(year := currentYear) else d
  }

  /** A date valid in 1900 is valid in every year: 1900 is not a leap year,
      so no month is longer then than in any other year. */
  lemma FillYearValid(d: Date, currentYear: int)
    requires ValidDate(d) && 1 <= currentYear <= 9999
    ensures ValidDate(FillYear(d, currentYear))
  {
    if d.year == 1900 {
      assert !IsLeapYear(1900);
      assert DaysInMonth(1900, d.month) <= DaysInMonth(currentYear, d.month);
    }
  }

  /** `parse_date(v)` with `datetime.now().year == currentYear`; only the
      date of the returned `datetime` is ever used. */
  function ParseDate(v: Json, currentYear: int): (r: Result<Date, ParseError>)
    requires 1 <= currentYear <= 9999
    ensures !Truthy(v) ==> r == Failure(ValueError("Date is missing."))
    ensures Truthy(v) && !v.Str? ==> r == Failure(AttributeError)
    ensures r.Success? ==> v.Str? && ValidDate(r.value)
    ensures r.Success? <==>
      v.Str? && v.s != [] && FirstParsing(DateFormats, Strip(NormalizeDate(v.s))).Some?
    ensures r.Success? && currentYear != 1900 ==> r.value.year != 1900
    ensures r.Failure? && v.Str? && v.s != [] ==>
      r.error == ValueError("Date format not recognized: " + NormalizeDate(v.s))
  {
    if !Truthy(v) then Failure(ValueError("Date is missing."))
    else if !v.Str? then Failure(AttributeError)
    else
      var text := NormalizeDate(v.s);
      match FirstParsing(DateFormats, Strip(text))
      case None => Failure(ValueError("Date format not recognized: " + text))
      case Some(k) =>
        var d := Parse(DateFormats[k], Strip(text)).value.date;
        FillYearValid(d, currentYear);
        Success(FillYear(d, currentYear))
  }

  /** `parse_time(v)`; only the time of day is returned. */
  function ParseTime(v: Json): (r: Result<Clock, ParseError>)
    ensures !Truthy(v) ==> r == Failure(ValueError("Time is missing."))
    ensures Truthy(v) && !v.Str? ==> r == Failure(AttributeError)
    ensures r.Success? ==> v.Str? && ValidClock(r.value)
    ensures r.Success? <==> v.Str? && v.s != [] && FirstParsing(TimeFormats, NormalizeTime(v.s)).Some?
    ensures r.Failure? && v.Str? && v.s != [] ==>
      r.error == ValueError("Time format not recognized: " + NormalizeTime(v.s))
  {
    if !Truthy(v) then Failure(ValueError("Time is missing."))
    else if !v.Str? then Failure(AttributeError)
    else
      var text := NormalizeTime(v.s);
      match FirstParsing(TimeFormats, text)
      case None => Failure(ValueError("Time format not recognized: " + text))
      case Some(k) => Success(Parse(TimeFormats[k], text).value.clock)
  }

  /** Minutes since midnight. */
  function MinuteOfDay(c: Clock): int {
    c.hour * 60 + c.minute
  }

  /** `(datetime.combine(today, c) + timedelta(minutes=30)).time()`: thirty
      minutes later on a 24-hour clock, seconds kept. */
  function AddHalfHour(c: Clock): (r: Clock)
    requires ValidClock(c)
    ensures ValidClock(r) && r.second == c.second
    ensures MinuteOfDay(r) == (MinuteOfDay(c) + 30) % 1440
  {
    var m := (MinuteOfDay(c) + 30) % 1440;
    Clock(m / 60, m % 60, c.second)
  }

  /** Why `create_event` gave up; it prints the exception and returns. */
  datatype CreateError =
    | KeyError(key: string)      // `data['date']` or `data['start_time']` is absent
    | DateError(date: ParseError)
    | TimeError(time: ParseError)
    | NotIterable                // `participants` is None, a number or a boolean

  /** The `participants` entries kept as attendees: iterating a list keeps
      its strings that contain `@`; iterating a string visits its
      characters, so each `@` in it becomes an attendee "@"; iterating a
      dict visits its keys. Anything else cannot be iterated. */
  function Attendees(participants: Json): (r: Result<seq<string>, CreateError>)
    ensures r.Failure? <==> participants.Null? || participants.Bool? || participants.Int?
    ensures r.Success? ==> forall i :: 0 <= i < |r.value| ==> '@' in r.value[i]
    ensures participants.List? ==> r == Success(EmailsIn(participants.items))
    ensures participants.Str? ==> r == Success(AtSigns(participants.s))
    ensures participants.Obj? ==> r == Success(KeysWithAt(participants.fields))
  {
    match participants
    case List(items) => Success(EmailsIn(items))
    case Str(s) => Success(AtSigns(s))
    case Obj(fields) => Success(KeysWithAt(fields))
    case _ => Failure(NotIterable)
  }

  /** The strings of `items` that contain `@`, in their original order. */
  function EmailsIn(items: seq<Json>): (r: seq<string>)
    ensures |r| <= |items|
    ensures forall i :: 0 <= i < |r| ==> '@' in r[i] && Str(r[i]) in items
    ensures forall i :: 0 <= i < |items| && items[i].Str? && '@' in items[i].s ==> items[i].s in r
  {
    if items == [] then []
    else
      var rest := EmailsIn(items[1..]);
      assert forall i :: 1 <= i < |items| ==> items[i] == items[1..][i - 1];
      if items[0].Str? && '@' in items[0].s then [items[0].s] + rest else rest
  }

  /** One "@" for every `@` character of `s`. */
  function AtSigns(s: string): (r: seq<string>)
    ensures |r| == multiset(s)['@']
    ensures forall i :: 0 <= i < |r| ==> r[i] == "@"
  {
    if s == [] then []
    else
      assert s == [s[0]] + s[1..];
      assert multiset(s) == multiset{s[0]} + multiset(s[1..]);
      (if s[0] == '@' then ["@"] else []) + AtSigns(s[1..])
  }

  /** The keys of a dict that contain `@`, in insertion order. */
  function KeysWithAt(fields: seq<Field>): (r: seq<string>)
    ensures |r| <= |fields|
    ensures forall i :: 0 <= i < |r| ==> '@' in r[i]
    ensures forall i :: 0 <= i < |fields| && '@' in fields[i].key ==> fields[i].key in r
  {
    if fields == [] then []
    else
      var rest := KeysWithAt(fields[1..]);
      assert forall i :: 1 <= i < |fields| ==> fields[i] == fields[1..][i - 1];
      if '@' in fields[0].key then [fields[0].key] + rest else rest
  }

  /** `d[key] = value`: replaces the value of an existing key in place and
      appends a new key at the end. */
  function SetKey(fields: seq<Field>, key: string, value: Json): (r: seq<Field>)
    ensures Lookup(r, key) == Some(value)
    ensures forall k :: k != key ==> Lookup(r, k) == Lookup(fields, k)
  {
    if fields == [] then [Field(key, value)]
    else if fields[0].key == key then [Field(key, value)] + fields[1..]
    else [fields[0]] + SetKey(fields[1..], key, value)
  }

  /** The record after the title default: a falsy or missing `title`
      becomes "Untitled Event". */
  function WithTitle(data: seq<Field>): (r: seq<Field>)
    ensures Truthy(Get(r, "title"))
    ensures Truthy(Get(data, "title")) ==> r == data
    ensures forall k :: k != "title" ==> Lookup(r, k) == Lookup(data, k)
  {
    if Truthy(Get(data, "title")) then data else SetKey(data, "title", Str("Untitled Event"))
  }

  const TimeZone := "America/New_York"
  const Description := "Created by AI Email Scheduler Agent"

  /** The body `create_event` inserts. Start and end are naive local times
      in `TimeZone`; their ISO rendering with a UTC offset is external. */
  datatype EventBody = EventBody(
    summary: Json,
    location: Json,
    description: string,
    start: DateTime,
    end: DateTime,
    timeZone: string,
    attendees: seq<string>)

  /** `data['date']` and `data['start_time']` are present and parse, and so
      does `end_time` when it is truthy. */
  predicate ReadsTimes(data: seq<Field>, currentYear: int)
    requires 1 <= currentYear <= 9999
  {
    && Lookup(data, "date").Some? && ParseDate(Get(data, "date"), currentYear).Success?
    && Lookup(data, "start_time").Some? && ParseTime(Get(data, "start_time")).Success?
    && (Truthy(Get(data, "end_time")) ==> ParseTime(Get(data, "end_time")).Success?)
  }

  /** The date and the two times `create_event` reads, in the order it
      reads them: `data['date']`, `data['start_time']`, then `end_time` when
      it is truthy and otherwise the start plus thirty minutes. */
  function EventTimes(data: seq<Field>, currentYear: int): (r: Result<(Date, Clock, Clock), CreateError>)
    requires 1 <= currentYear <= 9999
    ensures r.Success? ==> ValidDate(r.value.0) && ValidClock(r.value.1) && ValidClock(r.value.2)
    ensures r.Success? <==> ReadsTimes(data, currentYear)
    ensures r.Success? ==>
      ParseDate(Get(data, "date"), currentYear) == Success(r.value.0)
        && ParseTime(Get(data, "start_time")) == Success(r.value.1)
    ensures r.Success? && Truthy(Get(data, "end_time")) ==> ParseTime(Get(data, "end_time")) == Success(r.value.2)
    ensures r.Success? && !Truthy(Get(data, "end_time")) ==> r.value.2 == AddHalfHour(r.value.1)
    ensures Lookup(data, "date").None? ==> r == Failure(KeyError("date"))
    ensures Lookup(data, "date").Some? && ParseDate(Get(data, "date"), currentYear).Failure? ==>
      r == Failure(DateError(ParseDate(Get(data, "date"), currentYear).error))
    ensures (Lookup(data, "date").Some? && ParseDate(Get(data, "date"), currentYear).Success?
             && Lookup(data, "start_time").None?) ==> r == Failure(KeyError("start_time"))
    ensures (r.Failure? && Lookup(data, "date").Some? && ParseDate(Get(data, "date"), currentYear).Success?
             && Lookup(data, "start_time").Some?) ==> r.error.TimeError?
  {
    match Lookup(data, "date")
    case None => Failure(KeyError("date"))
    case Some(dateValue) =>
      match ParseDate(dateValue, currentYear)
      case Failure(e) => Failure(DateError(e))
      case Success(date) =>
        match Lookup(data, "start_time")
        case None => Failure(KeyError("start_time"))
        case Some(startValue) =>
          match ParseTime(startValue)
          case Failure(e) => Failure(TimeError(e))
          case Success(start) =>
            if Truthy(Get(data, "end_time")) then
              match ParseTime(Get(data, "end_time"))
              case Failure(e) => Failure(TimeError(e))
              case Success(end) => Success((date, start, end))
            else
              Success((date, start, AddHalfHour(start)))
  }

  /** `create_event(data)` up to the calendar call: the event body it
      would insert, or the exception that ends it. Either way the function
      returns normally. The title default is applied first; it touches
      only `title`, which nothing before the body reads. */
  function CreateEvent(data: seq<Field>, currentYear: int): (r: Result<EventBody, CreateError>)
    requires 1 <= currentYear <= 9999
    ensures r.Success? ==> r.value.start.date == r.value.end.date && ValidDate(r.value.start.date)
    ensures r.Success? ==> ValidClock(r.value.start.clock) && ValidClock(r.value.end.clock)
    ensures r.Success? ==> r.value.summary == Get(WithTitle(data), "title") && Truthy(r.value.summary)
    ensures r.Success? ==> r.value.location == Lookup(data, "location").GetOr(Str(""))
    ensures r.Success? ==> r.value.description == Description && r.value.timeZone == TimeZone
    ensures r.Success? <==>
      ReadsTimes(data, currentYear) && Attendees(Lookup(data, "participants").GetOr(List([]))).Success?
    ensures r.Success? ==>
      ParseDate(Get(data, "date"), currentYear) == Success(r.value.start.date)
        && ParseTime(Get(data, "start_time")) == Success(r.value.start.clock)
    ensures r.Success? && Truthy(Get(data, "end_time")) ==>
      ParseTime(Get(data, "end_time")) == Success(r.value.end.clock)
    ensures r.Success? && !Truthy(Get(data, "end_time")) ==>
      r.value.end.clock == AddHalfHour(r.value.start.clock)
    ensures r.Success? ==> Attendees(Lookup(data, "participants").GetOr(List([]))) == Success(r.value.attendees)
    ensures !ReadsTimes(data, currentYear) ==> r == Failure(EventTimes(data, currentYear).error)
    ensures ReadsTimes(data, currentYear) && Attendees(Lookup(data, "participants").GetOr(List([]))).Failure? ==>
      r == Failure(NotIterable)
  {
    var titled := WithTitle(data);
    match EventTimes(data, currentYear)
    case Failure(e) => Failure(e)
    case Success((date, start, end)) =>
      match Attendees(Lookup(data, "participants").GetOr(List([])))
      case Failure(e) => Failure(e)
      case Success(attendees) =>
        Success(EventBody(
          Get(titled, "title"),
          Lookup(data, "location").GetOr(Str("")),
          Description,
          DateTime(date, start),
          DateTime(date, end),
          TimeZone,
          attendees))
  }
}
