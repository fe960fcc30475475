/** What `parse_date`, `parse_time` and `create_event` do with the texts
    `isoformat` and `strftime` write, and with the defaults they fill in. */
module CalendarProperties {
  import opened Wrappers
  import opened Text
  import opened JsonValue
  import opened Seqs
  import opened Strptime
  import opened StrptimeProperties
  import opened CalendarUpdater

  /** `d.isoformat()`: "YYYY-MM-DD". */
  function IsoDate(d: Date): (r: string)
    requires ValidDate(d)
    ensures |r| == 10
  {
    Pad4(d.year) + ("-" + (Pad2(d.month) + ("-" + Pad2(d.day))))
  }

  /** `t.strftime("%H:%M")` */
  function HourMinute(h: nat, m: nat): (r: string)
    requires h < 24 && m < 60
    ensures |r| == 5
  {
    Pad2(h) + (":" + Pad2(m))
  }

  /** `t.isoformat()` for a time without a fraction of a second: "HH:MM:SS". */
  function IsoTime(c: Clock): (r: string)
    requires ValidClock(c)
    ensures |r| == 8
  {
    Pad2(c.hour) + (":" + (Pad2(c.minute) + (":" + Pad2(c.second))))
  }

  /** `t.strftime("%I:%M%p").lower()`, e.g. "03:00pm". */
  function TwelveHour(hour12: nat, m: nat, pm: bool): (r: string)
    requires 1 <= hour12 <= 12 && m < 60
    ensures |r| == 7
  {
    Pad2(hour12) + (":" + (Pad2(m) + AmPmText(pm)))
  }

  /** Text without letters comes out of the date normalisation unchanged. */
  lemma NormalizeDateUncased(s: string)
    requires forall i :: 0 <= i < |s| ==> !IsCased(s[i])
    ensures NormalizeDate(s) == s
  {
    LowerIdentity(s);
    assert 's' !in s && 'n' !in s && 'r' !in s && 't' !in s by {
      assert IsCased('s') && IsCased('n') && IsCased('r') && IsCased('t');
    }
    FirstCharAbsent(s, "st");
    DeleteAbsent(s, "st");
    FirstCharAbsent(s, "nd");
    DeleteAbsent(s, "nd");
    FirstCharAbsent(s, "rd");
    DeleteAbsent(s, "rd");
    FirstCharAbsent(s, "th");
    DeleteAbsent(s, "th");
    TitleIdentity(s, false);
  }

  /** Text without capitals or spaces, that begins and ends with a visible
      character, comes out of the time normalisation unchanged. */
  lemma NormalizeTimeIdentity(s: string)
    requires s != [] && !IsSpace(s[0]) && !IsSpace(s[|s| - 1])
    requires forall i :: 0 <= i < |s| ==> !IsUpper(s[i]) && s[i] != ' '
    ensures NormalizeTime(s) == s
  {
    LowerIdentity(s);
    FirstCharAbsent(s, " ");
    DeleteAbsent(s, " ");
  }

  lemma IsoDateMatches(d: Date)
    requires ValidDate(d)
    ensures Match(DateFormats[0], IsoDate(d), NoFields)
         == Some(NoFields.(year := Some(d.year as nat), month := Some(d.month as nat), day := Some(d.day as nat)))
  {
    var y, m, dd := d.year as nat, d.month as nat, d.day as nat;
    var f1 := NoFields.(year := Some(y));
    var f2 := f1.(month := Some(m));
    assert DateFormats[0] == [Year] + ([Lit('-')] + ([Month] + ([Lit('-')] + ([Day] + []))));
    MatchYear(y, [Lit('-')] + ([Month] + ([Lit('-')] + ([Day] + []))), "-" + (Pad2(m) + ("-" + Pad2(dd))), NoFields);
    MatchLit('-', [Month] + ([Lit('-')] + ([Day] + [])), Pad2(m) + ("-" + Pad2(dd)), f1);
    MatchMonth(m, [Lit('-')] + ([Day] + []), "-" + Pad2(dd), f1);
    MatchLit('-', [Day] + [], Pad2(dd), f2);
    assert Pad2(dd) == Pad2(dd) + [];
    MatchDay(dd, [], [], f2);
  }

  /** An ISO date is digits and hyphens, beginning and ending with a digit. */
  lemma IsoDateCharacters(d: Date)
    requires ValidDate(d)
    ensures forall i :: 0 <= i < |IsoDate(d)| ==> IsDigit(IsoDate(d)[i]) || IsoDate(d)[i] == '-'
    ensures IsDigit(IsoDate(d)[0]) && IsDigit(IsoDate(d)[9])
  {
  }

  /** An ISO date has no letters and no surrounding whitespace, so
      `parse_date` tries the formats on the text as it is. */
  lemma IsoDateUnchanged(d: Date)
    requires ValidDate(d)
    ensures NormalizeDate(IsoDate(d)) == IsoDate(d) && Strip(IsoDate(d)) == IsoDate(d)
  {
    var s := IsoDate(d);
    IsoDateCharacters(d);
    NormalizeDateUncased(s);
    assert !IsSpace(s[0]) && !IsSpace(s[|s| - 1]);
  }

  /** The first date format, "%Y-%m-%d", reads an ISO date. */
  lemma IsoDateParses(d: Date)
    requires ValidDate(d)
    ensures FirstParsing(DateFormats, IsoDate(d)) == Some(0)
    ensures Parse(DateFormats[0], IsoDate(d)) == Some(DateTime(d, Midnight))
  {
    IsoDateMatches(d);
  }

  /** `parse_date(d.isoformat())` gives back `d`, except that the year 1900
      becomes the current year. */
  lemma IsoDateRoundTrip(d: Date, currentYear: int)
    requires ValidDate(d) && 1 <= currentYear <= 9999
    ensures ParseDate(Str(IsoDate(d)), currentYear) == Success(FillYear(d, currentYear))
  {
    var s := IsoDate(d);
    IsoDateUnchanged(d);
    IsoDateParses(d);
    assert Strip(NormalizeDate(s)) == s;
    FillYearValid(d, currentYear);
  }

  lemma HourMinuteMatches(h: nat, m: nat)
    requires h < 24 && m < 60
    ensures Match(TimeFormats[1], HourMinute(h, m), NoFields)
         == Some(NoFields.(hour24 := Some(h), minute := Some(m)))
  {
    var f1 := NoFields.(hour24 := Some(h));
    assert TimeFormats[1] == [Hour24] + ([Lit(':')] + ([Minute] + []));
    MatchHour24(h, [Lit(':')] + ([Minute] + []), ":" + Pad2(m), NoFields);
    MatchLit(':', [Minute] + [], Pad2(m), f1);
    assert Pad2(m) == Pad2(m) + [];
    MatchMinute(m, [], [], f1);
  }

  /** `%p` alone finds no "a" or "p" to read. */
  lemma AmPmFails(s: string, f: Fields)
    requires FieldsInRange(f) && NoAOrP(s)
    ensures Match([AmPm], s, f).None?
  {
    if s != [] {
      assert s[0] in s;
    }
    AmPmScanNeedsLetter(s);
    assert [AmPm] == [AmPm] + [];
    MatchNoScan(AmPm, [], s, f);
  }

  /** "%M%p" fails for the same reason, whatever `%M` reads. */
  lemma MinuteAmPmFails(s: string, f: Fields)
    requires FieldsInRange(f) && NoAOrP(s)
    ensures Match([Minute, AmPm], s, f).None?
  {
    assert [Minute, AmPm] == [Minute] + [AmPm];
    match Scan(Minute, s)
    case None =>
      MatchNoScan(Minute, [AmPm], s, f);
    case Some(t) =>
      NoAOrPSuffix(s, t.length);
      MatchStep(Minute, [AmPm], s, f, t);
      AmPmFails(s[t.length..], Store(f, Minute, t.value));
  }

  /** ":%M%p" fails too. */
  lemma ColonAmPmFails(s: string, f: Fields)
    requires FieldsInRange(f) && NoAOrP(s)
    ensures Match([Lit(':'), Minute, AmPm], s, f).None?
  {
    assert [Lit(':'), Minute, AmPm] == [Lit(':')] + [Minute, AmPm];
    match Scan(Lit(':'), s)
    case None =>
      MatchNoScan(Lit(':'), [Minute, AmPm], s, f);
    case Some(t) =>
      NoAOrPSuffix(s, t.length);
      MatchStep(Lit(':'), [Minute, AmPm], s, f, t);
      MinuteAmPmFails(s[t.length..], Store(f, Lit(':'), t.value));
  }

  /** "%I:%M%p" never parses text without an "a" or a "p". */
  lemma TwelveHourNeedsAmPm(s: string)
    requires NoAOrP(s)
    ensures Parse(TimeFormats[0], s).None?
  {
    assert TimeFormats[0] == [Hour12] + [Lit(':'), Minute, AmPm];
    match Scan(Hour12, s)
    case None =>
      MatchNoScan(Hour12, [Lit(':'), Minute, AmPm], s, NoFields);
    case Some(t) =>
      NoAOrPSuffix(s, t.length);
      MatchStep(Hour12, [Lit(':'), Minute, AmPm], s, NoFields, t);
      ColonAmPmFails(s[t.length..], Store(NoFields, Hour12, t.value));
  }

  /** Text of digits and colons never parses under "%I:%M%p". */
  lemma NoAmPmInDigits(s: string)
    requires forall i :: 0 <= i < |s| ==> IsDigit(s[i]) || s[i] == ':'
    ensures Parse(TimeFormats[0], s).None?
  {
    assert NoAOrP(s);
    TwelveHourNeedsAmPm(s);
  }

  /** "%H:%M" is the first time format that reads "HH:MM". */
  lemma HourMinuteParses(h: nat, m: nat)
    requires h < 24 && m < 60
    ensures FirstParsing(TimeFormats, HourMinute(h, m)) == Some(1)
    ensures Parse(TimeFormats[1], HourMinute(h, m)) == Some(DateTime(Date(1900, 1, 1), Clock(h, m, 0)))
  {
    var s := HourMinute(h, m);
    assert forall i :: 0 <= i < |s| ==> IsDigit(s[i]) || s[i] == ':';
    NoAmPmInDigits(s);
    HourMinuteMatches(h, m);
    assert FirstParsing(TimeFormats[1..], s) == Some(0);
  }

  /** `parse_time(t.strftime("%H:%M"))` reads back the hour and minute. */
  lemma HourMinuteRoundTrip(h: nat, m: nat)
    requires h < 24 && m < 60
    ensures ParseTime(Str(HourMinute(h, m))) == Success(Clock(h, m, 0))
  {
    var s := HourMinute(h, m);
    assert forall i :: 0 <= i < |s| ==> IsDigit(s[i]) || s[i] == ':';
    NormalizeTimeIdentity(s);
    HourMinuteParses(h, m);
    var text := NormalizeTime(s);
    assert text == s;
    assert FirstParsing(TimeFormats, text) == Some(1);
    assert Parse(TimeFormats[1], text).value.clock == Clock(h, m, 0);
    assert Truthy(Str(s));
  }

  /** "%H:%M" leaves the seconds unconverted. */
  lemma IsoTimeNotHourMinute(c: Clock)
    requires ValidClock(c)
    ensures Match(TimeFormats[1], IsoTime(c), NoFields).None?
  {
    var h, m := c.hour as nat, c.minute as nat;
    var f1 := NoFields.(hour24 := Some(h));
    var left := ":" + Pad2(c.second);
    assert TimeFormats[1] == [Hour24] + ([Lit(':')] + ([Minute] + []));
    MatchHour24(h, [Lit(':')] + ([Minute] + []), ":" + (Pad2(m) + left), NoFields);
    MatchLit(':', [Minute] + [], Pad2(m) + left, f1);
    MatchMinute(m, [], left, f1);
  }

  lemma IsoTimeMatches(c: Clock)
    requires ValidClock(c)
    ensures Match(TimeFormats[2], IsoTime(c), NoFields)
         == Some(NoFields.(hour24 := Some(c.hour as nat), minute := Some(c.minute as nat),
                           second := Some(c.second as nat)))
  {
    var h, m, sec := c.hour as nat, c.minute as nat, c.second as nat;
    var f1 := NoFields.(hour24 := Some(h));
    var f2 := f1.(minute := Some(m));
    assert TimeFormats[2] == [Hour24] + ([Lit(':')] + ([Minute] + ([Lit(':')] + ([Second] + []))));
    MatchHour24(h, [Lit(':')] + ([Minute] + ([Lit(':')] + ([Second] + []))), ":" + (Pad2(m) + (":" + Pad2(sec))), NoFields);
    MatchLit(':', [Minute] + ([Lit(':')] + ([Second] + [])), Pad2(m) + (":" + Pad2(sec)), f1);
    MatchMinute(m, [Lit(':')] + ([Second] + []), ":" + Pad2(sec), f1);
    MatchLit(':', [Second] + [], Pad2(sec), f2);
    assert Pad2(sec) == Pad2(sec) + [];
    MatchSecond(sec, [], [], f2);
  }

  /** "%H:%M:%S" is the first time format that reads an ISO time. */
  lemma IsoTimeParses(c: Clock)
    requires ValidClock(c)
    ensures FirstParsing(TimeFormats, IsoTime(c)) == Some(2)
    ensures Parse(TimeFormats[2], IsoTime(c)) == Some(DateTime(Date(1900, 1, 1), c))
  {
    var s := IsoTime(c);
    assert forall i :: 0 <= i < |s| ==> IsDigit(s[i]) || s[i] == ':';
    NoAmPmInDigits(s);
    IsoTimeNotHourMinute(c);
    IsoTimeMatches(c);
    assert FirstParsing(TimeFormats[2..], s) == Some(0);
    assert FirstParsing(TimeFormats[1..], s) == Some(1);
  }

  /** `parse_time(t.isoformat())` gives back `t`. */
  lemma IsoTimeRoundTrip(c: Clock)
    requires ValidClock(c)
    ensures ParseTime(Str(IsoTime(c))) == Success(c)
  {
    var s := IsoTime(c);
    assert forall i :: 0 <= i < |s| ==> IsDigit(s[i]) || s[i] == ':';
    NormalizeTimeIdentity(s);
    IsoTimeParses(c);
    var text := NormalizeTime(s);
    assert text == s;
    assert FirstParsing(TimeFormats, text) == Some(2);
    assert Parse(TimeFormats[2], text).value.clock == c;
    assert Truthy(Str(s));
  }

  lemma TwelveHourMatches(hour12: nat, m: nat, pm: bool)
    requires 1 <= hour12 <= 12 && m < 60
    ensures Match(TimeFormats[0], TwelveHour(hour12, m, pm), NoFields)
         == Some(NoFields.(hour12 := Some(hour12), minute := Some(m), pm := Some(pm)))
  {
    var f1 := NoFields.(hour12 := Some(hour12));
    var f2 := f1.(minute := Some(m));
    assert TimeFormats[0] == [Hour12] + ([Lit(':')] + ([Minute] + ([AmPm] + [])));
    MatchHour12(hour12, [Lit(':')] + ([Minute] + ([AmPm] + [])), ":" + (Pad2(m) + AmPmText(pm)), NoFields);
    MatchLit(':', [Minute] + ([AmPm] + []), Pad2(m) + AmPmText(pm), f1);
    MatchMinute(m, [AmPm] + [], AmPmText(pm), f1);
    assert AmPmText(pm) == AmPmText(pm) + [];
    MatchAmPm(pm, [], [], f2);
  }

  /** A lower-case 12-hour reading has no capitals, no spaces, and visible
      characters at both ends. */
  lemma TwelveHourCharacters(hour12: nat, m: nat, pm: bool)
    requires 1 <= hour12 <= 12 && m < 60
    ensures var s := TwelveHour(hour12, m, pm);
      !IsSpace(s[0]) && !IsSpace(s[|s| - 1]) && forall i :: 0 <= i < |s| ==> !IsUpper(s[i]) && s[i] != ' '
  {
    var s := TwelveHour(hour12, m, pm);
    assert s[|s| - 1] == 'm';
    assert forall i :: 0 <= i < 5 ==> IsDigit(s[i]) || s[i] == ':';
    assert s[5..] == AmPmText(pm);
  }


  /** "%I:%M%p" reads a 12-hour reading. */
  lemma TwelveHourParses(hour12: nat, m: nat, pm: bool)
    requires 1 <= hour12 <= 12 && m < 60
    ensures FirstParsing(TimeFormats, TwelveHour(hour12, m, pm)) == Some(0)
    ensures Parse(TimeFormats[0], TwelveHour(hour12, m, pm))
         == Some(DateTime(Date(1900, 1, 1), Clock(To24(hour12, Some(pm)), m, 0)))
  {
    TwelveHourMatches(hour12, m, pm);
  }

  /** `parse_time` on a 12-hour reading: 12 am is midnight, 12 pm is noon
      and the other pm hours move on by twelve. */
  lemma TwelveHourRoundTrip(hour12: nat, m: nat, pm: bool)
    requires 1 <= hour12 <= 12 && m < 60
    ensures ParseTime(Str(TwelveHour(hour12, m, pm))) == Success(Clock(To24(hour12, Some(pm)), m, 0))
  {
    var s := TwelveHour(hour12, m, pm);
    TwelveHourCharacters(hour12, m, pm);
    NormalizeTimeIdentity(s);
    TwelveHourParses(hour12, m, pm);
    var text := NormalizeTime(s);
    assert text == s;
    assert FirstParsing(TimeFormats, text) == Some(0);
    assert Parse(TimeFormats[0], text).value.clock == Clock(To24(hour12, Some(pm)), m, 0);
    assert Truthy(Str(s));
  }




  /** Every time of day parses back from its 12-hour reading. */
  lemma TwelveHourOfEveryClock(h: nat, m: nat)
    requires h < 24 && m < 60
    ensures ParseTime(Str(TwelveHour(From24(h).0, m, From24(h).1))) == Success(Clock(h, m, 0))
  {
    TwelveHourRoundTrip(From24(h).0, m, From24(h).1);
    Strptime.TwelveHourRoundTrip(h, 1, false);
  }

  /** The default end falls before the start exactly when the start is
      23:30 or later; otherwise it is thirty minutes after it. */
  lemma HalfHourWraps(c: Clock)
    requires ValidClock(c)
    ensures MinuteOfDay(AddHalfHour(c)) < MinuteOfDay(c) <==> MinuteOfDay(c) >= 1410
    ensures MinuteOfDay(c) < 1410 ==> MinuteOfDay(AddHalfHour(c)) == MinuteOfDay(c) + 30
  {
  }

  /** "23:45" without an end time ends at "00:15". */
  lemma QuarterToMidnight()
    ensures AddHalfHour(Clock(23, 45, 0)) == Clock(0, 15, 0)
  {
  }

  /** Both ends share the parsed date, so an event starting at 23:30 or later
      without an end time ends before it starts. */
  lemma LateEventEndsBeforeStart(data: seq<Field>, currentYear: int)
    requires 1 <= currentYear <= 9999
    requires CreateEvent(data, currentYear).Success? && !Truthy(Get(data, "end_time"))
    requires MinuteOfDay(CreateEvent(data, currentYear).value.start.clock) >= 1410
    ensures CreateEvent(data, currentYear).value.end.date == CreateEvent(data, currentYear).value.start.date
    ensures MinuteOfDay(CreateEvent(data, currentYear).value.end.clock)
          < MinuteOfDay(CreateEvent(data, currentYear).value.start.clock)
  {
    HalfHourWraps(CreateEvent(data, currentYear).value.start.clock);
  }

  /** The attendee filter keeps the order of the list: it maps a
      concatenation to the concatenation of the results. */
  lemma {:induction false} EmailsInAppend(a: seq<Json>, b: seq<Json>)
    ensures EmailsIn(a + b) == EmailsIn(a) + EmailsIn(b)
  {
    if a == [] {
      assert a + b == b;
    } else {
      assert (a + b)[0] == a[0] && (a + b)[1..] == a[1..] + b;
      EmailsInAppend(a[1..], b);
      if a[0].Str? && '@' in a[0].s {
        assert EmailsIn(a + b) == [a[0].s] + (EmailsIn(a[1..]) + EmailsIn(b));
      } else {
        assert EmailsIn(a + b) == EmailsIn(a[1..]) + EmailsIn(b);
      }
    }
  }

  /** A single participant is kept exactly when it is a string with an `@`. */
  lemma EmailsInOne(x: Json)
    ensures EmailsIn([x]) == if x.Str? && '@' in x.s then [x.s] else []
  {
    assert [x][1..] == [];
  }

  /** The strings as JSON values. */
  function AsJson(r: seq<string>): (w: seq<Json>)
    ensures |w| == |r| && forall i :: 0 <= i < |r| ==> w[i] == Str(r[i])
  {
    if r == [] then [] else [Str(r[0])] + AsJson(r[1..])
  }

  /** The kept strings, in order, form a subsequence of the participants. */
  lemma {:induction false} EmailsInSubsequence(items: seq<Json>)
    ensures IsSubsequence(AsJson(EmailsIn(items)), items)
  {
    if items != [] {
      var rest := EmailsIn(items[1..]);
      EmailsInSubsequence(items[1..]);
      if items[0].Str? && '@' in items[0].s {
        var w := AsJson([items[0].s] + rest);
        assert w[0] == items[0];
        assert w[1..] == AsJson(rest);
      } else {
        SubsequencePrepend(AsJson(rest), items[0], items[1..]);
        assert [items[0]] + items[1..] == items;
      }
    }
  }

}
