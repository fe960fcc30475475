# Email scheduling agent — a Dafny model of its decision core

The scheduler reads unread email. For each message it asks a local language
model for the event the message describes. It recovers one JSON object from
the model's free-text reply and decides whether that object describes an
event. When it does, it turns the date and time texts into a calendar event.

This project models the pure logic of that pipeline and proves properties of
it:

- **Extraction** (`LlmAgent`, `llm_agent.py`). Checking the reply envelope,
  cutting out the `{...}` block, deleting `//` comments and stripping the
  result.
- **Classification and gating** (`App`, `app.py`):
  - the `has_date` / `has_start_time` test of the fetch loop;
  - the looser test of the debug endpoint;
  - the four-field "missing required fields" gate of `schedule_event` and
    `process_email`;
  - the responses those two endpoints give.
- **The fetch pass** (`App`, `app.py`). The loop that empties the cache,
  classifies each email, counts the schedulable ones and stores them by id.
- **Date and time reading** (`CalendarUpdater`, `Strptime`,
  `calendar_updater.py`):
  - the normalisation `parse_date` and `parse_time` apply;
  - the formats they try, read by a model of CPython's `datetime.strptime`
    restricted to the directives used (`%Y %m %d %A %B %I %H %M %S %p`);
  - the current-year default;
  - the 30-minute default end;
  - the title default;
  - the attendee filter and the event body `create_event` builds.

Supporting modules:

- `Wrappers`: `Option` and `Result`.
- `Seqs`: subsequences.
- `Text`: Python `str` operations — `isspace`, `strip`, `lower`, `title`,
  `replace(x, "")` and `str(int)`.
- `JsonValue`: the values `json.loads` yields, with `bool()`, `str()`,
  `repr()`, `d.get` and `key in d`.
- `DateWords`: what `parse_date` does with dates written with month and
  weekday names.

`CalendarProperties` and `LlmAgentProperties` hold the round trips and the
other lemmas that relate several operations.

Inputs that come from outside are parameters:

- the model's decoded reply (or, for the endpoints, the extraction result);
- `json.loads` (a function `string -> Option<seq<Field>>`);
- the current year;
- whether the mail service is connected;
- the inbox that `get_unread_emails` returned.

## Model

| member | source | states |
|---|---|---|
| LlmAgent.FindBlock | llm_agent.py:59-61 | the greedy `{[\s\S]*}` search finds a block exactly when some `{` has a `}` after it; the block runs from the first `{` to the last `}` |
| LlmAgent.SkipToNewline | llm_agent.py:64 | `.*` consumes a newline-free prefix and stops at the first newline or at the end |
| LlmAgent.RemoveComments | llm_agent.py:64 | comment removal never lengthens the text and leaves no `//` behind; a text that does not open with `//` keeps its first character |
| LlmAgent.NoCommentCons | llm_agent.py:64 | a text is free of `//` exactly when its tail is and it does not start with one (the recursion `RemoveComments` relies on) |
| LlmAgent.ExtractJsonBlock | llm_agent.py:59-68 | extraction succeeds exactly when a `{`…`}` pair exists, and otherwise fails with the "No valid JSON found" error; a success starts with `{`, ends in a non-space and holds no `//` |
| LlmAgent.StripKeepsNoComment | llm_agent.py:64-66 | stripping a `//`-free text keeps it `//`-free |
| LlmAgent.InfixKeepsNoComment | llm_agent.py:64-66 | every contiguous piece of a `//`-free text is `//`-free |
| LlmAgent.ExtractFromReply | llm_agent.py:52-68 | an `error` entry in the reply is raised as it is; a missing `response` fails with `MissingResponse`, a non-text one with `ResponseNotText`, text without a `{`…`}` pair with "No valid JSON found"; it succeeds exactly when `response` is text holding a pair, and then yields the block extracted from it |
| LlmAgentProperties.FindComment | llm_agent.py:64 | the first `//` of a text: it is absent exactly when the text is `//`-free, and no `//` ends before it |
| LlmAgentProperties.SkipWholeLine | llm_agent.py:64 | `.*` consumes exactly one newline-free line |
| LlmAgentProperties.CommentedLine | llm_agent.py:64 | a line that starts with `//` is dropped up to its newline |
| LlmAgentProperties.CommentsOfLineThenRest | llm_agent.py:64 | one line loses its comment and the rest is processed on its own |
| LlmAgentProperties.RemoveCommentsIsLineWise | llm_agent.py:64 | `re.sub(r'//.*', '', s)` equals an independent definition: split at newlines, cut each line at its first `//`, rejoin |
| LlmAgentProperties.RemoveCommentsIdentity | llm_agent.py:64 | a `//`-free text is left unchanged |
| LlmAgentProperties.RemoveCommentsIdempotent | llm_agent.py:64 | removing comments twice is the same as removing them once |
| LlmAgentProperties.WholeBlock | llm_agent.py:59-61 | a text that opens with `{` and closes with `}` is its own block |
| LlmAgentProperties.ExtractClosedBlock | llm_agent.py:59-66 | a `//`-free `{...}` text is extracted as itself |
| LlmAgentProperties.ExtractOfCleanBlock | llm_agent.py:59-66 | a found block that comment removal and stripping leave alone is the result |
| LlmAgentProperties.ExtractShortens | llm_agent.py:59-66 | extraction never lengthens its input, and keeps the full length only if the input ends in `}` |
| LlmAgentProperties.ReExtraction | llm_agent.py:59-66 | extracting an extracted block again returns it unchanged exactly when it still ends in `}` |
| LlmAgentProperties.ReExtractionOfClean | llm_agent.py:59-66 | a `//`-free text that opens with `{` is a fixed point of extraction exactly when it ends in `}` |
| LlmAgentProperties.NotClosedNotSelf | llm_agent.py:59-66 | a text that does not end in `}` is never a fixed point of extraction |
| LlmAgentProperties.CommentCutsStringLiteral | llm_agent.py:64 | `//` inside a JSON string literal still cuts the rest of the line |
| LlmAgentProperties.ExtractCommentedBlock | llm_agent.py:59-66 | a one-line block holding `//` is extracted as the stripped text before the `//` |
| LlmAgentProperties.UrlValueIsTruncated | llm_agent.py:64 | one concrete one-line reply, `{"link": "https://meet.example.com"}`, is cut to `{"link": "https:`, so the text handed to `json.loads` is unbalanced; the general statement for any one-line block is `ExtractCommentedBlock` |
| LlmAgentProperties.ClosingBraceAfterCommentIsLost | llm_agent.py:64-66 | a `}` after a `//` on the same line is deleted, so the result need not end in `}` |
| LlmAgentProperties.BracesInWrongOrder | llm_agent.py:59-68 | a reply whose only `}` comes before its only `{` yields "No valid JSON found" |
| LlmAgentProperties.NoPairAcrossSplit | llm_agent.py:59-60 | when every `{` comes after every `}` no block is found |
| LlmAgentProperties.NameErrorOnEveryReply | llm_agent.py:47-53 | as written, a well-formed reply ends in `NameError`; with the undefined-name check removed, the same reply yields its block |
| JsonValue.Lookup | app.py:120-121 | `d[key]` finds a value exactly when some entry has that key, and the value is stored under it |
| JsonValue.PyStrOfNonText | app.py:123-133 | the `str()` of a number, boolean, list or dict is non-empty, has no surrounding whitespace and does not begin with "n" |
| App.NonTextRendering | app.py:123-133 | for a value that is neither `None` nor text, stripping `str(v)` changes nothing and the lower-cased rendering does not start with "n" |
| App.TextSchedulingValue | app.py:123-133 | for text the classifier's test holds exactly when the stripped text is non-empty and not "null"/"none" in any case |
| App.NotPlaceholder | app.py:125 | a rendering whose lower-cased form does not start with "n" is none of the placeholders "null", "none", "" |
| App.OtherSchedulingValue | app.py:123-133 | every number, boolean, list or dict passes the classifier's test, even `False`, `0`, `[]` and `{}` |
| App.HasSchedulingValueIff | app.py:123-133 | the classifier's value test equals the case-by-case definition `Meaningful` (both directions) |
| App.IsSchedulableIff | app.py:116-141 | an email is schedulable exactly when its record has no `action` key and both `date` and `start_time` are `Meaningful` |
| App.OtherDebugValue | app.py:52-53 | for a value that is neither `None` nor text, the debug test is plain truthiness |
| App.DebugHasValueIff | app.py:52-53 | the debug test holds for text exactly when the stripped text is non-empty, and for any other value exactly when it is truthy |
| App.DebugDisagreement | app.py:52-53 | the debug test accepts and the classifier rejects exactly the text "null"/"none"; the classifier accepts and the debug test rejects exactly the falsy non-text values |
| App.DebugDetectsPlaceholderDate | app.py:62 | a record whose date reads "null" is reported as `would_be_detected` although the fetch loop rejects it |
| App.MissingFields | app.py:223-224 | a field is reported missing exactly when it is required and its value is falsy; the missing fields keep the order of the required list |
| App.GateIff | app.py:223-226 | the gate passes exactly when `title`, `date`, `start_time` and `end_time` are all truthy |
| App.GatePassesPlaceholder | app.py:123-127 | a record whose date is the text "null" passes the four-field gate but is not schedulable |
| App.ClassifiedButGated | app.py:141 | a schedulable record without a truthy `title` or `end_time` is stopped by the gate |
| App.ScheduleEvent | app.py:216-243 | a request body that is not a dict, or a truthy `scheduling_data` that is not a dict, gives 500; missing or falsy `scheduling_data` gives 400 "Scheduling data is required"; the event is created exactly when `scheduling_data` is a dict passing the gate, which answers with that record and asks `create_event` for it; a declined record answers 400 with "Missing required fields: " and the missing names, echoing the data |
| App.ProcessEmail | app.py:248-298 | falsy `email_text` gives 400; a failed extraction gives 500 with its error; an undecodable extraction answers 200 "Failed to parse LLM output as JSON"; a record missing fields answers 200 "Missing required fields: " and the names; an event is created exactly when the email text is truthy, extraction succeeds, the text decodes, has no `action` key and passes the gate; every decline echoes the extracted text |
| App.ActionKeyComesFirst | app.py:262-267 | a decoded record with an `action` key is declined with "No scheduling information found in email", whatever its other fields hold |
| App.SameGate | app.py:262-287 | for a decoded record without an `action` key, `process_email` answers exactly as `schedule_event` does for the same record when, and only when, the record passes the four-field gate |
| App.ProcessEmailAsWritten | app.py:256 | as written, every request carrying email text ends in a 500 from the extraction's `NameError`, and no event is attempted |
| App.CreatedWithoutEvent | app.py:234-240 | a record with a truthy non-text date passes the gate; `create_event` fails on `.lower()`, swallows the error, and the endpoint still answers "Event created successfully" |
| App.EntryFor | app.py:144-152 | the cache entry exists exactly when `id`, `subject`, `from` and `snippet` are present and the id is hashable; it copies those four and the decoded record, with `has_scheduling` set |
| App.Classify | app.py:103-170 | an iteration is skipped exactly when it raises before the classifier, and is accepted exactly when the classifier says yes; an accepted iteration writes the entry built from its email |
| App.CountAppend | app.py:143 | one more iteration adds one to the count exactly when it accepts |
| App.CountIsAccepted | app.py:102-143 | `scheduling_count` is the number of accepting iterations, including those whose cache write then raised |
| App.AcceptedAreSchedulable | app.py:103-141 | the accepting iterations are exactly those of the emails the classifier accepts |
| App.CountIsSchedulable | app.py:102-143 | `scheduling_count` is the number of emails the classifier accepts |
| App.CacheKeysAreWritten | app.py:99-152 | after the pass the cache holds exactly the keys the pass wrote |
| App.LastWriteWins | app.py:145-152 | under each written key the cache holds the entry of the last write with that key |
| App.CacheNoLargerThanCount | app.py:143-152 | the cache never holds more entries than `scheduling_count` |
| App.NothingAccepted | app.py:99-102 | a pass that accepts nothing leaves an empty cache and a zero count |
| App.FetchAsWritten | app.py:108 | as written, every extraction raises `NameError`, so the pass caches nothing and counts nothing |
| App.UnboundFromMeans | app.py:103-163 | the pass ends at the first undecodable reply that no earlier iteration's assignment of `structured` precedes; there is none exactly when every undecodable reply comes after such an assignment |
| App.UnboundLeavesCacheEmpty | app.py:99-163 | no iteration before that reply reached the classifier, so the cache and count are still empty when `UnboundLocalError` leaves the loop |
| App.FetchAsWrittenFailsOnUndecodableReply | app.py:108-180 | as written no extraction returns, so any undecodable reply from the model server ends the whole request in the 500 |
| App.CacheMatchesCount | app.py:143-152 | when every accepted email has a complete entry and no two ids coincide, the cache size equals `scheduling_count` |
| App.NonAcceptedIgnored | app.py:153-170 | an iteration that raises or is not accepted changes neither the cache nor the count |
| App.FetchEmails | app.py:86-180 | without a mail service the answer is the 500 and the cache is kept; a failed read keeps the cache too; a pass that meets an undecodable reply before any snippet was extracted answers the 500 of `UnboundLocalError` and leaves the cache emptied; otherwise the answer reports the number of emails read and the number the classifier accepted, and the cache is the one the pass built |
| App.PassForgetsOldCache | app.py:99 | the cache a pass leaves does not depend on the cache before it, and holds only keys the pass wrote |
| App.RunPass | app.py:99-170 | the loop, run one email at a time, fails exactly when an undecodable reply comes before any assignment of `structured`, and then leaves an empty cache and a zero count; otherwise it ends with the classifier's count, a cache no larger than it, and exactly the written keys |
| CalendarUpdater.FillYearValid | calendar_updater.py:14-15 | filling in the year never makes a valid date invalid (1900 is not a leap year) |
| CalendarUpdater.ParseDate | calendar_updater.py:6-19 | a falsy value raises "Date is missing."; a truthy non-text value raises `AttributeError`; it succeeds exactly when the normalised, stripped text is read by one of the six formats; a success is a valid date whose year is never 1900 (unless the current year is); an unrecognised text raises "Date format not recognized: " followed by the normalised text |
| CalendarUpdater.ParseTime | calendar_updater.py:21-30 | a falsy value raises "Time is missing."; a truthy non-text value raises `AttributeError`; it succeeds exactly when the normalised text is read by one of the three formats; a success is a valid time of day; an unrecognised text raises "Time format not recognized: " followed by the normalised text |
| CalendarUpdater.AddHalfHour | calendar_updater.py:44 | the default end is thirty minutes after the start on a 24-hour clock, seconds kept |
| CalendarUpdater.Attendees | calendar_updater.py:55-59 | iterating `participants` fails exactly for `None`, booleans and numbers; a list yields its strings containing `@`, a string one "@" per `@`, a dict its keys containing `@`; every attendee contains `@` |
| CalendarUpdater.EmailsIn | calendar_updater.py:57-59 | the kept entries are the list's strings that contain `@`: each kept one is in the list and every such string is kept |
| CalendarUpdater.AtSigns | calendar_updater.py:57-59 | iterating a string visits characters, so there is one attendee "@" per `@` in it |
| CalendarUpdater.KeysWithAt | calendar_updater.py:57-59 | iterating a dict visits its keys; the keys containing `@` are kept |
| CalendarUpdater.SetKey | calendar_updater.py:36 | `d[key] = value` makes `key` read `value` and changes no other key |
| CalendarUpdater.WithTitle | calendar_updater.py:35-36 | after the default the title is truthy, a truthy title is kept, and no other key changes |
| CalendarUpdater.EventTimes | calendar_updater.py:42-47 | the start date and clock are what `parse_date` and `parse_time` give for the record's `date` and `start_time`; a truthy `end_time` is what `parse_time` gives for it, a falsy one makes the end the start plus thirty minutes; an absent `date` or `start_time` raises `KeyError`, a failed `parse_date` raises its error, and it succeeds exactly when all three readings do |
| CalendarUpdater.CreateEvent | calendar_updater.py:32-74 | an event is built exactly when the times are read and `participants` is iterable; its start and end lie on the date `parse_date` gives, with the clocks `parse_time` gives (or the default end); it carries the defaulted truthy title, the `location` or "", the fixed description and time zone, and the filtered attendees; otherwise it fails with the times' error or "not iterable" |
| CalendarProperties.NormalizeDateUncased | calendar_updater.py:9 | text without letters comes out of the date normalisation unchanged |
| CalendarProperties.NormalizeTimeIdentity | calendar_updater.py:24 | text without capitals or spaces and with visible ends comes out of the time normalisation unchanged |
| CalendarProperties.IsoDateCharacters | calendar_updater.py:10 | an ISO date is digits and hyphens, beginning and ending with a digit |
| CalendarProperties.IsoDateUnchanged | calendar_updater.py:9-12 | an ISO date survives the normalisation and the strip |
| CalendarProperties.IsoDateMatches | calendar_updater.py:10-12 | "%Y-%m-%d" matches every ISO date |
| CalendarProperties.IsoDateParses | calendar_updater.py:10-12 | "%Y-%m-%d" is the first date format to read an ISO date, and it reads back the same date |
| CalendarProperties.IsoDateRoundTrip | calendar_updater.py:6-19 | `parse_date(d.isoformat())` gives back `d`, with a year of 1900 replaced by the current year |
| CalendarProperties.HourMinuteMatches | calendar_updater.py:25-27 | "%H:%M" matches every zero-padded "HH:MM" |
| CalendarProperties.AmPmFails | calendar_updater.py:25-27 | `%p` fails on text without "a" or "p" |
| CalendarProperties.MinuteAmPmFails | calendar_updater.py:25-27 | "%M%p" fails on text without "a" or "p" |
| CalendarProperties.ColonAmPmFails | calendar_updater.py:25-27 | ":%M%p" fails on text without "a" or "p" |
| CalendarProperties.TwelveHourNeedsAmPm | calendar_updater.py:25-27 | "%I:%M%p" never parses text without "a" or "p" |
| CalendarProperties.NoAmPmInDigits | calendar_updater.py:25-27 | "%I:%M%p" never parses digits and colons, so "HH:MM" falls through to the next format |
| CalendarProperties.HourMinuteParses | calendar_updater.py:25-27 | "%H:%M" is the first time format to read "HH:MM", and it reads back the hour and minute |
| CalendarProperties.HourMinuteRoundTrip | calendar_updater.py:21-30 | `parse_time(t.strftime("%H:%M"))` gives back the hour and minute with zero seconds |
| CalendarProperties.IsoTimeNotHourMinute | calendar_updater.py:25-27 | "%H:%M" rejects "HH:MM:SS" because the seconds are left unconverted |
| CalendarProperties.IsoTimeMatches | calendar_updater.py:25-27 | "%H:%M:%S" matches every "HH:MM:SS" |
| CalendarProperties.IsoTimeParses | calendar_updater.py:25-27 | "%H:%M:%S" is the first time format to read "HH:MM:SS", and it reads back the time |
| CalendarProperties.IsoTimeRoundTrip | calendar_updater.py:21-30 | `parse_time(t.isoformat())` gives back `t` |
| CalendarProperties.TwelveHourMatches | calendar_updater.py:25-27 | "%I:%M%p" matches every lower-case "HH:MMam"/"HH:MMpm" |
| CalendarProperties.TwelveHourCharacters | calendar_updater.py:24 | a lower-case 12-hour reading has no capitals, no spaces and visible ends |
| CalendarProperties.TwelveHourParses | calendar_updater.py:25-27 | "%I:%M%p" is the first time format to read a 12-hour reading, and it yields the 24-hour clock |
| CalendarProperties.TwelveHourRoundTrip | calendar_updater.py:21-30 | `parse_time` of "HH:MMam"/"HH:MMpm" gives the 24-hour time: 12am is midnight, 12pm is noon |
| CalendarProperties.TwelveHourOfEveryClock | calendar_updater.py:21-30 | every hour and minute parses back from its 12-hour reading |
| CalendarProperties.HalfHourWraps | calendar_updater.py:44-47 | the default end falls before the start exactly when the start is 23:30 or later; before that it is thirty minutes later |
| CalendarProperties.QuarterToMidnight | calendar_updater.py:44 | a 23:45 start without an end time ends at 00:15 |
| CalendarProperties.LateEventEndsBeforeStart | calendar_updater.py:44-47 | an event starting at 23:30 or later without an end time ends on the same date at an earlier time |
| CalendarProperties.EmailsInAppend | calendar_updater.py:57-59 | the attendee filter maps a concatenation to the concatenation of its results |
| CalendarProperties.EmailsInOne | calendar_updater.py:58 | a single participant is kept exactly when it is a string containing `@` |
| CalendarProperties.EmailsInSubsequence | calendar_updater.py:57-59 | the kept attendees are a subsequence of the participants, in order |
| Strptime.Scan | calendar_updater.py:12 | a directive consumes no more than the text and yields a value in its range; `\s+` fails exactly when the text does not begin with whitespace |
| Strptime.NumericAlternativeInRange | calendar_updater.py:12 | every alternative of a numeric directive's expression only admits numbers in that directive's range |
| Strptime.Match | calendar_updater.py:12 | a successful match captures only numbers within their ranges |
| Strptime.StoreInRange | calendar_updater.py:12 | recording an in-range value keeps all captured numbers in range |
| Strptime.To24 | calendar_updater.py:27 | the hour from `%I` and `%p` has the same remainder mod 12 and is 12 or more exactly for "pm" |
| Strptime.TwelveHourRoundTrip | calendar_updater.py:27 | the 12-hour and 24-hour readings of an hour convert into each other both ways |
| Strptime.Assemble | calendar_updater.py:12 | a built `datetime` is valid, has the parsed year (1900 by default) and takes its hour from `%I`/`%p` when present; it fails exactly when the year is 0, the day does not exist in the month, or the second is above 59 |
| Strptime.Parse | calendar_updater.py:12 | every parsed `datetime` is a valid date and time |
| Strptime.FirstParsing | calendar_updater.py:10-18 | the first format that parses, in order: every earlier format fails; it is absent exactly when every format fails |
| StrptimeProperties.IntOfPad2 | calendar_updater.py:12 | `int()` of a zero-padded two-digit number gives it back |
| StrptimeProperties.IntOfPad4 | calendar_updater.py:12 | `int()` of a zero-padded four-digit number gives it back |
| StrptimeProperties.AmPmScanNeedsLetter | calendar_updater.py:27 | `%p` cannot match where no "a" or "p" stands, in either case |
| Text.Strip | calendar_updater.py:12 | the stripped text has no whitespace at either end, keeps the first character of a text that does not start with whitespace, and a text with visible ends is unchanged |
| Text.StripIsInfix | llm_agent.py:66 | the stripped text is the infix of the text that starts after the leading whitespace, and everything before and after it is whitespace |
| Text.LStrip | calendar_updater.py:24 | only whitespace is removed from the front, and the result does not start with whitespace |
| Text.RStrip | calendar_updater.py:24 | only whitespace is removed from the back, and the result does not end with whitespace |
| Text.DeleteUnchangedIff | calendar_updater.py:9 | `replace(p, "")` returns the text unchanged exactly when `p` does not occur in it |
| Text.DeleteShortens | calendar_updater.py:9 | a deletion shortens the text by at least the pattern's length when the pattern occurs |
| Text.DeleteSplice | calendar_updater.py:9 | a deletion leaves the text before the first occurrence alone |
| Text.DeleteConcat | calendar_updater.py:9 | deleting a two-letter pair from a concatenation whose second part starts with a non-letter deletes from each part separately |
| Text.StripKeepsWord | calendar_updater.py:9-12 | stripping a text that starts with a word bounded by letters keeps the word and a prefix of what follows |
| StrptimeProperties.MatchIgnoresCase | calendar_updater.py:12 | a format matches a text and its case variants alike (CPython compiles the patterns case-insensitively) |
| StrptimeProperties.FirstParsingIgnoresCase | calendar_updater.py:10-18 | the first format to read a text is the same for every case variant of it |
| DateWords.NormalizeKeeps | calendar_updater.py:9 | a word free of the pairs, then non-letters, an optional ordinal suffix and non-letters, normalises to the title-cased word and the non-letters, the suffix deleted |
| DateWords.MonthDayYearParses | calendar_updater.py:10-12 | "<month> <dd>, <yyyy>" is read first by "%B %d, %Y", the fifth format, with that month, day and year |
| DateWords.MonthDayYearWithoutComma | calendar_updater.py:10-12 | "<month> <dd> <yyyy>" is read by no format |
| DateWords.NormalizedDateReads | calendar_updater.py:9-19 | when the normalised text needs no strip, `parse_date` returns the date the first format reading it in lower case gives, with the year filled in, or the "not recognized" error when none does |
| DateWords.ParseMonthDayYear | calendar_updater.py:6-19 | a date written "<Month> <dd>[st/nd/rd/th], <yyyy>" in any case, for every month but August, gives that date |
| DateWords.MonthDayYearWithoutCommaFails | calendar_updater.py:6-19 | the same date without the comma is refused with "Date format not recognized: " and the normalised text |
| DateWords.OctoberExample | calendar_updater.py:6-19 | "October 25th, 2025" gives 2025-10-25 |
| DateWords.OnlyAugustHoldsOrdinal | calendar_updater.py:9 | August is the one month whose name holds one of "st", "nd", "rd", "th" |
| DateWords.LosingDeleted | calendar_updater.py:9 | the deletions turn "august", "monday", "thursday", "saturday" and "sunday" into "augu", "moay", "ursday", "satuay" and "suay" |
| DateWords.MangledDoNotScan | calendar_updater.py:10-12 | none of the mangled names, followed by a non-letter, is read by `%B` or `%A` |
| DateWords.MangledTextUnread | calendar_updater.py:10-18 | a text that reads as a mangled name followed by a non-letter is read by no format, even once stripped |
| DateWords.LosingNameDatesFail | calendar_updater.py:6-19 | every date that begins with "August", "Monday", "Thursday", "Saturday" or "Sunday", in any case, followed by a non-letter, is refused with "Date format not recognized: " and the normalised text |

## Left out

- The HTTP call to the language model, the prompt text and the model's
  behaviour are external. The decoded reply is an input. A reply body that
  `response.json()` cannot decode is the `ReplyNotJson` input. In the fetch
  loop it raises a `JSONDecodeError` whose handler reads `structured`, and
  that read raises `UnboundLocalError` when no earlier iteration assigned it.
- LlmAgent.ExtractFromReply: the decoded reply is assumed to be a JSON
  object, which is what the model server's `/api/generate` endpoint
  (llm_agent.py:36) returns. A list, string or number from
  `response.json()` would make `"error" in result` (llm_agent.py:52) test
  list membership or search a substring, and `result["response"]` raise
  `TypeError`. Those paths are not modelled.
- App.FetchEmails: the `ReplyNotJson` path assumes that
  `except json.JSONDecodeError` (app.py:160) catches the error
  `response.json()` raises. That holds when requests' `JSONDecodeError`
  subclasses `json.JSONDecodeError`. When requests decodes with simplejson
  instead, the generic handler (app.py:165-170) skips the email and
  `structured` is never read. That variant is not modelled.
- `json.loads` is a parameter. The text it receives starts with `{`, so a
  successful decode is a dict. A failed decode is `None`, which stands for a
  `JSONDecodeError`. The text of that error's message is not modelled. The
  parameter is assumed to keep the last value of a repeated key, as a
  Python dict does.
- App.ProcessEmail: a `json.loads` failure that is not a `JSONDecodeError`
  is not modelled. Nesting deeper than the recursion limit raises
  `RecursionError`, and from Python 3.11 an integer literal longer than
  4300 digits raises a plain `ValueError`. Neither is caught at app.py:289,
  so the endpoint answers 500 with the error text (app.py:297-298). The
  model reads every failed decode as the 200 "Failed to parse LLM output as
  JSON". The fetch loop skips the email for any exception (app.py:165-170)
  and so is unaffected.
- Flask routing, `request.get_json()` failures, `jsonify`, and status codes
  beyond the numbers recorded in `Response` are left out. So are OAuth
  credentials, the Google Calendar and Gmail calls, and
  `get_unread_emails`. The inbox is an input, and its messages are assumed
  to be dicts.
- `pytz` localisation and `isoformat()` of the event's start and end are
  left out. The body holds the naive date and clocks instead. The clock is
  the `currentYear` parameter.
- `print`, `traceback` and all logging are left out, apart from the
  `[:50]` slice at app.py:105. That slice can raise, and the model keeps it
  as the "subject cannot be sliced" skip.
- The `get_scheduling_emails`, `get_emails`, `check-emails` and health
  endpoints are not modelled. `memory.py`, `test-setup.py` and the React
  front end are not part of this model.
- The debug endpoint is modelled only through its two value tests and
  `would_be_detected`. Its call into the extractor and its JSON answer are
  not.
- Case mapping, `title()` and `isspace()` follow ASCII letters and Python's
  whitespace set. Non-ASCII case mapping is not modelled.
- `repr()` inside `str()` of lists and dicts does not model string
  escaping, and floats are not modelled. The lemmas only rely on a
  rendering being non-empty, not starting with "n" and having visible
  ends.
- Python treats `1` and `True` as the same dict key. The cache is keyed by
  the `Json` value, so they are distinct here.
- `strptime` is modelled for the directives these formats use, as a
  left-to-right matcher. Each numeric directive takes the first alternative
  of CPython's expression that matches, and `\s+` takes the longest run.
  This agrees with CPython's backtracking regular expression for these
  formats, because each numeric directive is followed by a non-digit or by
  the end. The agreement is argued, not proved.
- Strptime.Scan: does not promise that a successful scan consumes at least
  one character. No lemma needs that fact.
- Text.Delete: its contract states only that the result is no longer than
  the text. The full meaning is carried by `Text.DeleteUnchangedIff` and
  `Text.DeleteShortens`.
- Text.Title: its contract states only the length. The case relation is
  stated on `Text.TitleAfter`.
- CalendarUpdater.ParseDate: round trips are proved for the ISO format and
  for "%B %d, %Y" with a two-digit day (`DateWords.ParseMonthDayYear`). No
  round trip is stated for "%A, %B %d", "%B %d", "%A %B %d" and "%A %d %B",
  or for one-digit days.
- The date normalisation deletes "st", "nd", "rd" and "th" anywhere. Names
  such as "August", "Monday" and "Thursday" are therefore mangled before
  matching. This is modelled as written, and `DateWords.LosingNameDatesFail`
  proves that every date starting with one of those five names is refused.
  Tuesday, Wednesday and Friday are not mangled, so no such failure is
  stated for them.
- Digits are ASCII only (`Text.IsDigit`). CPython's `\d` in `strptime` and
  `int()` also accept other Unicode decimal digits, such as full-width
  ones. A year written in full-width digits is read by Python but refused
  here. Non-ASCII input is otherwise out of scope, as with case mapping.
- Where the documented behaviour and the code disagree, the code is
  followed:
  - "October 25th 2025" is not recognised, because no format has a year
    without a comma.
  - The title default is "Untitled Event", not "Meeting".
  - There is no `time` → `start_time` mapping and no coercion of a
    non-list `participants` value.
  - An unparsable start with no end time makes `create_event` fail; the
    start is not echoed as the end.

## Findings

| source | as written | input that shows it | evidently intended | confidence | as-written member | corrected member |
|---|---|---|---|---|---|---|
| llm_agent.py:47-50 | the missing-date guard reads `data`, a name bound nowhere in the function or its module, so every call raises `NameError` before the reply is looked at | any reply, e.g. `{"response": "{}"}` | check the reply envelope (lines 52-68) and return the extracted block | high (not executed) | LlmAgentProperties.NameErrorOnEveryReply | LlmAgent.ExtractFromReply |

Because of this, every `process_email` request that carries text answers
500 (`App.ProcessEmailAsWritten`). Every fetch pass also caches nothing and
counts nothing (`App.FetchAsWritten`). The rest of the model uses the
corrected extraction.
