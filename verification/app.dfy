/** The decisions the Flask endpoints make: which analysed emails count as
    schedulable and what the per-pass cache keeps (`fetch_emails`), the
    required-field gate in front of `create_event` (`schedule_event`,
    `process_email`) and the looser check `debug_scheduling` reports.
    Gmail, the language-model call and `json.loads` are inputs. */
module App {
  import opened Wrappers
  import opened Text
  import opened Seqs
  import opened JsonValue
  import opened LlmAgent
  import opened CalendarUpdater

  /** `json.loads` applied to the extracted text. The text starts with `{`,
      so a successful decode is an object; `None` stands for a
      `JSONDecodeError`. */
  type JsonLoads = string -> Option<seq<Field>>

  // ---------------------------------------------------------------------
  // The classifier of `fetch_emails`

  /** The stripped, lower-cased renderings that do not count as a value. */
  const Placeholders: seq<string> := ["null", "none", ""]

  /** `has_date` (and `has_start_time`): the value is not `None`, its
      stripped, lower-cased `str()` is none of the placeholders, and its
      stripped `str()` is not empty. */
  predicate HasSchedulingValue(v: Json) {
    !v.Null? && Lower(Strip(PyStr(v))) !in Placeholders && |Strip(PyStr(v))| > 0
  }

  /** The same test read off value by value: `None` never counts, a string
      counts unless it is blank or reads "null" or "none" in any case, and
      every other value (numbers, booleans, lists, dicts, even `0`, `False`
      and `[]`) counts. */
  predicate Meaningful(v: Json) {
    match v
    case Null => false
    case Str(s) => Strip(s) != [] && Lower(Strip(s)) != "null" && Lower(Strip(s)) != "none"
    case _ => true
  }

  /** `not has_action_key and has_valid_scheduling`. */
  predicate IsSchedulable(data: seq<Field>) {
    !HasKey(data, "action") && HasSchedulingValue(Get(data, "date"))
      && HasSchedulingValue(Get(data, "start_time"))
  }

  /** The `str()` of anything but `None` and text needs no stripping. */
  lemma NonTextRendering(v: Json)
    requires !v.Null? && !v.Str?
    ensures Strip(PyStr(v)) == PyStr(v) != []
    ensures Lower(PyStr(v))[0] != 'n'
  {
    PyStrOfNonText(v);
  }

  /** For text, the classifier's test reads the stripped, lower-cased text. */
  lemma TextSchedulingValue(s: string)
    ensures HasSchedulingValue(Str(s)) <==> Meaningful(Str(s))
  {
    assert PyStr(Str(s)) == s;
    var t := Lower(Strip(s));
    assert |t| == |Strip(s)|;
    assert t in Placeholders <==> t == "null" || t == "none" || t == "";
  }

  /** Every value other than `None` and text passes the classifier's test. */
  lemma OtherSchedulingValue(v: Json)
    requires !v.Null? && !v.Str?
    ensures HasSchedulingValue(v)
  {
    var p := PyStr(v);
    assert Strip(p) == p by {
      NonTextRendering(v);
    }
    assert Lower(p) !in Placeholders && p != [] by {
      NonTextRendering(v);
      NotPlaceholder(p);
    }
  }

  /** Text that does not lower-case to a word starting with "n" is no placeholder. */
  lemma NotPlaceholder(p: string)
    requires p != [] && Lower(p)[0] != 'n'
    ensures Lower(p) !in Placeholders
  {
    var t := Lower(p);
    assert t != "" && t[0] != "null"[0] && t[0] != "none"[0];
  }



  /** The classifier's value test is exactly `Meaningful`. */
  lemma HasSchedulingValueIff(v: Json)
    ensures HasSchedulingValue(v) <==> Meaningful(v)
  {
    if v.Str? {
      TextSchedulingValue(v.s);
    } else if !v.Null? {
      OtherSchedulingValue(v);
    }
  }

  /** An email is schedulable exactly when its record has no `action` key,
      whatever that key holds, and both `date` and `start_time` are
      meaningful. */
  lemma IsSchedulableIff(data: seq<Field>)
    ensures IsSchedulable(data) <==>
      !HasKey(data, "action") && Meaningful(Get(data, "date")) && Meaningful(Get(data, "start_time"))
  {
    HasSchedulingValueIff(Get(data, "date"));
    HasSchedulingValueIff(Get(data, "start_time"));
  }

  // ---------------------------------------------------------------------
  // The check `debug_scheduling` reports

  /** `bool(str(v).strip()) if v else False` */
  predicate DebugHasValue(v: Json) {
    Truthy(v) && Strip(PyStr(v)) != []
  }

  /** `would_be_detected` */
  predicate WouldBeDetected(data: seq<Field>) {
    !HasKey(data, "action") && DebugHasValue(Get(data, "date")) && DebugHasValue(Get(data, "start_time"))
  }

  /** Every value other than `None` and text passes the debug test exactly
      when it is truthy. */
  lemma OtherDebugValue(v: Json)
    requires !v.Null? && !v.Str?
    ensures DebugHasValue(v) <==> Truthy(v)
  {
    var p := PyStr(v);
    assert Strip(p) != [] by {
      NonTextRendering(v);
    }
  }

  /** The debug test, value by value: a string counts when it is not blank,
      anything else when it is truthy. */
  lemma DebugHasValueIff(v: Json)
    ensures DebugHasValue(v) <==> if v.Str? then Strip(v.s) != [] else Truthy(v)
  {
    if v.Str? {
      assert PyStr(v) == v.s;
    } else if !v.Null? {
      OtherDebugValue(v);
    }
  }

  /** The debug endpoint and the fetch loop disagree on exactly two kinds of
      value: strings reading "null" or "none", which only the debug endpoint
      accepts, and falsy non-text values (`0`, `False`, `[]`, `{}`), which
      only the fetch loop accepts. */
  lemma DebugDisagreement(v: Json)
    ensures DebugHasValue(v) && !HasSchedulingValue(v) <==>
      v.Str? && (Lower(Strip(v.s)) == "null" || Lower(Strip(v.s)) == "none")
    ensures HasSchedulingValue(v) && !DebugHasValue(v) <==> !v.Null? && !v.Str? && !Truthy(v)
  {
    DebugHasValueIff(v);
    HasSchedulingValueIff(v);
    if v.Str? {
      var t := Lower(Strip(v.s));
      assert |t| == |Strip(v.s)|;
      assert t == "null" || t == "none" ==> Strip(v.s) != [];
    }
  }

  /** So a record whose date reads "null" would be detected by the debug
      endpoint and is not counted by the fetch loop. */
  lemma DebugDetectsPlaceholderDate(data: seq<Field>)
    requires !HasKey(data, "action") && DebugHasValue(Get(data, "start_time"))
    requires Get(data, "date").Str? && Lower(Strip(Get(data, "date").s)) == "null"
    ensures WouldBeDetected(data) && !IsSchedulable(data)
  {
    DebugDisagreement(Get(data, "date"));
  }

  // ---------------------------------------------------------------------
  // The required-field gate of `schedule_event` and `process_email`

  const RequiredFields: seq<string> := ["title", "date", "start_time", "end_time"]

  /** `[field for field in fields if not data.get(field)]`: the fields whose
      value is absent or falsy, in their listed order. */
  function MissingFields(fields: seq<string>, data: seq<Field>): (r: seq<string>)
    ensures forall k :: k in r <==> k in fields && !Truthy(Get(data, k))
    ensures IsSubsequence(r, fields)
  {
    if fields == [] then []
    else
      var rest := MissingFields(fields[1..], data);
      assert fields == [fields[0]] + fields[1..];
      SubsequencePrepend(rest, fields[0], fields[1..]);
      if Truthy(Get(data, fields[0])) then rest else [fields[0]] + rest
  }

  /** The refusal message: "Missing required fields: " and the missing
      fields joined by ", ". */
  function MissingMessage(missing: seq<string>): string {
    "Missing required fields: " + Join(missing, ", ")
  }

  /** The gate passes exactly when all four required fields are truthy. */
  lemma GateIff(data: seq<Field>)
    ensures MissingFields(RequiredFields, data) == [] <==>
      Truthy(Get(data, "title")) && Truthy(Get(data, "date"))
        && Truthy(Get(data, "start_time")) && Truthy(Get(data, "end_time"))
  {
    var m := MissingFields(RequiredFields, data);
    if m != [] {
      assert m[0] in m;
    }
  }

  /** The gate and the classifier disagree: a record whose date is the text
      "null" passes the gate while the classifier turns it down. */
  lemma GatePassesPlaceholder(data: seq<Field>)
    requires Truthy(Get(data, "title")) && Truthy(Get(data, "start_time")) && Truthy(Get(data, "end_time"))
    requires Get(data, "date").Str? && Lower(Strip(Get(data, "date").s)) == "null"
    ensures MissingFields(RequiredFields, data) == [] && !IsSchedulable(data)
  {
    var s := Get(data, "date").s;
    assert |Lower(Strip(s))| == |Strip(s)| <= |s|;
    GateIff(data);
    HasSchedulingValueIff(Get(data, "date"));
  }

  /** Conversely, a schedulable record is stopped by the gate whenever its
      title or end time is absent or falsy, which the classifier never
      looks at. */
  lemma ClassifiedButGated(data: seq<Field>)
    requires IsSchedulable(data)
    requires !Truthy(Get(data, "title")) || !Truthy(Get(data, "end_time"))
    ensures MissingFields(RequiredFields, data) != []
  {
    GateIff(data);
  }

  // ---------------------------------------------------------------------
  // `schedule_event` and `process_email`

  /** Why an endpoint answered 500: `str(e)` of an exception. */
  datatype Cause =
    | NotAnObject                         // `.get` on a request body that is not a dict
    | ExtractionFailed(e: ExtractError)   // raised by `extract_schedule_from_email`

  /** The JSON an endpoint answers with. */
  datatype Response =
    | Rejected(error: string)                          // {"error": ...}, 400
    | ServerError(cause: Cause)                        // {"error": str(e)}, 500
    | Declined(status: nat, message: string, echo: Json)  // {"success": False, "message": ...}
    | Created(eventData: seq<Field>)                   // {"success": True, "message": "Event created successfully"}

  function Status(r: Response): nat {
    match r
    case Rejected(_) => 400
    case ServerError(_) => 500
    case Declined(status, _, _) => status
    case Created(_) => 200
  }

  /** What an endpoint answered, and the event body `create_event` was
      asked for, if it was called. `create_event` catches every failure,
      so its outcome never reaches the answer. */
  datatype Handled = Handled(response: Response, attempt: Option<Result<EventBody, CreateError>>)

  /** `schedule_event` for the decoded request body. */
  function ScheduleEvent(request: Json, currentYear: int): (r: Handled)
    requires 1 <= currentYear <= 9999
    ensures !request.Obj? ==> r.response == ServerError(NotAnObject)
    ensures request.Obj? && !Truthy(Get(request.fields, "scheduling_data")) ==>
      r.response == Rejected("Scheduling data is required")
    ensures r.response.Created? <==>
      request.Obj? && Get(request.fields, "scheduling_data").Obj?
        && MissingFields(RequiredFields, Get(request.fields, "scheduling_data").fields) == []
    ensures r.response.Created? ==>
      r.response.eventData == Get(request.fields, "scheduling_data").fields
        && r.attempt == Some(CreateEvent(r.response.eventData, currentYear))
    ensures r.attempt.Some? <==> r.response.Created?
    ensures r.response.Declined? ==> Status(r.response) == 400
    ensures r.response.Declined? ==>
      request.Obj? && Get(request.fields, "scheduling_data").Obj?
        && r.response == Declined(400,
             MissingMessage(MissingFields(RequiredFields, Get(request.fields, "scheduling_data").fields)),
             Get(request.fields, "scheduling_data"))
    ensures (request.Obj? && Truthy(Get(request.fields, "scheduling_data"))
             && !Get(request.fields, "scheduling_data").Obj?) ==> r.response == ServerError(NotAnObject)
  {
    if !request.Obj? then Handled(ServerError(NotAnObject), None)
    else
      var data := Get(request.fields, "scheduling_data");
      if !Truthy(data) then Handled(Rejected("Scheduling data is required"), None)
      else if !data.Obj? then Handled(ServerError(NotAnObject), None)
      else
        var missing := MissingFields(RequiredFields, data.fields);
        if missing != [] then Handled(Declined(400, MissingMessage(missing), data), None)
        else Handled(Created(data.fields), Some(CreateEvent(data.fields, currentYear)))
  }

  /** `process_email` for the decoded request body, given what the
      extraction step made of the model's reply (`extracted`) and the
      decoder of that text. */
  function ProcessEmail(request: Json, extracted: Result<string, ExtractError>, loads: JsonLoads, currentYear: int): (r: Handled)
    requires 1 <= currentYear <= 9999
    ensures request.Obj? && !Truthy(Get(request.fields, "email_text")) ==>
      r.response == Rejected("Email text is required")
    ensures r.response.Created? <==>
      request.Obj? && Truthy(Get(request.fields, "email_text")) && extracted.Success?
        && loads(extracted.value).Some? && !HasKey(loads(extracted.value).value, "action")
        && MissingFields(RequiredFields, loads(extracted.value).value) == []
    ensures r.response.Created? ==>
      r.response.eventData == loads(extracted.value).value
        && r.attempt == Some(CreateEvent(r.response.eventData, currentYear))
    ensures r.attempt.Some? <==> r.response.Created?
    ensures r.response.Declined? ==>
      extracted.Success? && Status(r.response) == 200 && r.response.echo == Str(extracted.value)
    ensures !request.Obj? ==> r.response == ServerError(NotAnObject)
    ensures request.Obj? && Truthy(Get(request.fields, "email_text")) && extracted.Failure? ==>
      r.response == ServerError(ExtractionFailed(extracted.error))
    ensures (request.Obj? && Truthy(Get(request.fields, "email_text")) && extracted.Success?
             && loads(extracted.value).None?) ==>
      r.response == Declined(200, "Failed to parse LLM output as JSON", Str(extracted.value))
    ensures (request.Obj? && Truthy(Get(request.fields, "email_text")) && extracted.Success?
             && loads(extracted.value).Some? && !HasKey(loads(extracted.value).value, "action")
             && MissingFields(RequiredFields, loads(extracted.value).value) != []) ==>
      r.response == Declined(200, MissingMessage(MissingFields(RequiredFields, loads(extracted.value).value)),
        Str(extracted.value))
  {
    if !request.Obj? then Handled(ServerError(NotAnObject), None)
    else if !Truthy(Get(request.fields, "email_text")) then Handled(Rejected("Email text is required"), None)
    else match extracted
      case Failure(e) => Handled(ServerError(ExtractionFailed(e)), None)
      case Success(structured) =>
        match loads(structured)
        case None => Handled(Declined(200, "Failed to parse LLM output as JSON", Str(structured)), None)
        case Some(parsed) =>
          if HasKey(parsed, "action") then
            Handled(Declined(200, "No scheduling information found in email", Str(structured)), None)
          else
            var missing := MissingFields(RequiredFields, parsed);
            if missing != [] then Handled(Declined(200, MissingMessage(missing), Str(structured)), None)
            else Handled(Created(parsed), Some(CreateEvent(parsed, currentYear)))
  }

  /** An `action` key turns the record down before its fields are looked
      at: the answer is the same whatever the other fields hold. */
  lemma ActionKeyComesFirst(request: Json, structured: string, loads: JsonLoads, currentYear: int)
    requires 1 <= currentYear <= 9999
    requires request.Obj? && Truthy(Get(request.fields, "email_text"))
    requires loads(structured).Some? && HasKey(loads(structured).value, "action")
    ensures ProcessEmail(request, Success(structured), loads, currentYear).response
      == Declined(200, "No scheduling information found in email", Str(structured))
  {
  }

  /** Both endpoints apply the same four-field gate: a decoded record
      without an `action` key creates an event through `process_email`
      exactly when it does as the `scheduling_data` of `schedule_event`,
      and the same event body is asked for. */
  lemma SameGate(request: Json, structured: string, loads: JsonLoads, currentYear: int)
    requires 1 <= currentYear <= 9999
    requires request.Obj? && Truthy(Get(request.fields, "email_text"))
    requires loads(structured).Some? && !HasKey(loads(structured).value, "action")
    ensures var parsed := loads(structured).value;
      (ProcessEmail(request, Success(structured), loads, currentYear)
         == ScheduleEvent(Obj([Field("scheduling_data", Obj(parsed))]), currentYear))
        <==> MissingFields(RequiredFields, parsed) == []
  {
    var parsed := loads(structured).value;
    var body := Obj([Field("scheduling_data", Obj(parsed))]);
    assert Get(body.fields, "scheduling_data") == Obj(parsed);
    if parsed == [] {
      assert "title" in RequiredFields;
      assert "title" in MissingFields(RequiredFields, parsed);
    }
  }

  /** As written, `extract_schedule_from_email` raises `NameError` before it
      looks at the reply, so every request that carries email text is
      answered with 500 and no event is attempted. */
  lemma ProcessEmailAsWritten(request: Json, reply: seq<Field>, loads: JsonLoads, currentYear: int)
    requires 1 <= currentYear <= 9999
    requires request.Obj? && Truthy(Get(request.fields, "email_text"))
    ensures var r := ProcessEmail(request, ExtractScheduleAsWritten(reply), loads, currentYear);
      r.response == ServerError(ExtractionFailed(UndefinedName("data"))) && Status(r.response) == 500
        && r.attempt.None?
  {
  }

  /** `schedule_event` reports success although `create_event` could not
      build the event: a truthy date that is not text (the number 5, say)
      passes the gate, `.lower()` fails on it inside `create_event`, which
      swallows the error, and the answer is still "Event created
      successfully". */
  lemma CreatedWithoutEvent(data: seq<Field>, currentYear: int)
    requires 1 <= currentYear <= 9999
    requires Truthy(Get(data, "title")) && Truthy(Get(data, "start_time")) && Truthy(Get(data, "end_time"))
    requires Truthy(Get(data, "date")) && !Get(data, "date").Str?
    ensures var r := ScheduleEvent(Obj([Field("scheduling_data", Obj(data))]), currentYear);
      r.response == Created(data) && r.attempt == Some(Failure(DateError(AttributeError)))
  {
    assert Get([Field("scheduling_data", Obj(data))], "scheduling_data") == Obj(data);
    assert data != [];
    GateIff(data);
    assert CreateEvent(data, currentYear) == Failure(DateError(AttributeError)) by {
      assert Lookup(data, "date") == Some(Get(data, "date"));
      assert ParseDate(Get(data, "date"), currentYear) == Failure(AttributeError);
    }
  }

  // ---------------------------------------------------------------------
  // The fetch pass

  /** One email of a fetch pass: the message dict `get_unread_emails`
      returned, and what `extract_schedule_from_email` made of the model's
      reply for its snippet. */
  datatype Scanned = Scanned(email: seq<Field>, extracted: Result<string, ExtractError>)

  /** A value of the cache: `scheduling_emails_cache[email['id']]`. */
  datatype CacheEntry = CacheEntry(
    emailId: Json, subject: Json, sender: Json, snippet: Json,
    schedulingData: seq<Field>, hasScheduling: bool)

  type Cache = map<Json, CacheEntry>

  /** The state of the loop: the cache and `scheduling_count`. */
  datatype Pass = Pass(cache: Cache, count: nat)

  /** Values `[:50]` can slice. */
  predicate Sliceable(v: Json) {
    v.Str? || v.List?
  }

  /** Values that can be dict keys. */
  predicate Hashable(v: Json) {
    !v.List? && !v.Obj?
  }

  /** Lines 105-109 of one iteration: the decoded record, or `None` when an
      exception ends the iteration first (a subject that cannot be sliced,
      an extraction error, a decode error). */
  function Analyze(e: Scanned, loads: JsonLoads): Option<seq<Field>> {
    if !Sliceable(Lookup(e.email, "subject").GetOr(Str("No subject"))) then None
    else match e.extracted
      case Failure(_) => None
      case Success(structured) => loads(structured)
  }

  /** The iteration reached the classifier and the classifier said yes. */
  predicate Schedulable(e: Scanned, loads: JsonLoads) {
    Analyze(e, loads).Some? && IsSchedulable(Analyze(e, loads).value)
  }

  /** The key and entry lines 144-152 write, or `None` when `email['id']`,
      `['subject']`, `['from']` or `['snippet']` raises `KeyError` or the
      id cannot be a key. */
  function EntryFor(email: seq<Field>, parsed: seq<Field>): (r: Option<(Json, CacheEntry)>)
    ensures r.Some? <==>
      Lookup(email, "id").Some? && Hashable(Lookup(email, "id").value) && Lookup(email, "subject").Some?
        && Lookup(email, "from").Some? && Lookup(email, "snippet").Some?
    ensures r.Some? ==>
      var (id, entry) := r.value;
      Lookup(email, "id") == Some(id) && entry.emailId == id
        && Lookup(email, "subject") == Some(entry.subject) && Lookup(email, "from") == Some(entry.sender)
        && Lookup(email, "snippet") == Some(entry.snippet)
        && entry.schedulingData == parsed && entry.hasScheduling
  {
    match (Lookup(email, "id"), Lookup(email, "subject"), Lookup(email, "from"), Lookup(email, "snippet"))
    case (Some(id), Some(subject), Some(sender), Some(snippet)) =>
      if Hashable(id) then Some((id, CacheEntry(id, subject, sender, snippet, parsed, true))) else None
    case _ => None
  }

  /** A cache write: the key and the entry stored under it. */
  type Write = (Json, CacheEntry)

  /** What one iteration of the loop amounts to. */
  datatype Verdict =
    | Skipped                        // an exception ended the iteration before the classifier
    | NotScheduling                  // the classifier said no
    | Accepted(write: Option<Write>) // counted; the write, unless building the entry raised

  /** One iteration of the loop (lines 104-170). The count goes up before
      `email['id']` is read, so an email whose entry cannot be built is
      counted but not cached. */
  function Classify(e: Scanned, loads: JsonLoads): (v: Verdict)
    ensures v.Skipped? <==> Analyze(e, loads).None?
    ensures v.Accepted? <==> Schedulable(e, loads)
    ensures v.Accepted? ==> v.write == EntryFor(e.email, Analyze(e, loads).value)
  {
    match Analyze(e, loads)
    case None => Skipped
    case Some(parsed) =>
      if IsSchedulable(parsed) then Accepted(EntryFor(e.email, parsed)) else NotScheduling
  }

  /** The verdicts of a pass, in order. */
  function Verdicts(emails: seq<Scanned>, loads: JsonLoads): (vs: seq<Verdict>)
    ensures |vs| == |emails|
    ensures forall i :: 0 <= i < |emails| ==> vs[i] == Classify(emails[i], loads)
  {
    if emails == [] then []
    else Verdicts(emails[..|emails| - 1], loads) + [Classify(emails[|emails| - 1], loads)]
  }

  /** The loop body's effect on the cache and `scheduling_count`. */
  function Step(p: Pass, v: Verdict): Pass {
    match v
    case Accepted(Some((id, entry))) => Pass(p.cache[id := entry], p.count + 1)
    case Accepted(None) => Pass(p.cache, p.count + 1)
    case _ => p
  }

  /** The loop, from the emptied cache. */
  function Fold(vs: seq<Verdict>): Pass {
    if vs == [] then Pass(map[], 0) else Step(Fold(vs[..|vs| - 1]), vs[|vs| - 1])
  }

  /** The writes of a pass, in order. */
  function Writes(vs: seq<Verdict>): (w: seq<Write>)
    ensures |w| <= |vs|
  {
    if vs == [] then []
    else Writes(vs[..|vs| - 1]) + (if vs[|vs| - 1].Accepted? && vs[|vs| - 1].write.Some? then [vs[|vs| - 1].write.value] else [])
  }

  /** How many verdicts accept, counted from the front. */
  function CountAccepted(vs: seq<Verdict>): (n: nat)
    ensures n <= |vs|
  {
    if vs == [] then 0 else (if vs[0].Accepted? then 1 else 0) + CountAccepted(vs[1..])
  }

  /** How many emails the classifier accepts, counted from the front. */
  function CountSchedulable(emails: seq<Scanned>, loads: JsonLoads): (n: nat)
    ensures n <= |emails|
  {
    if emails == [] then 0
    else (if Schedulable(emails[0], loads) then 1 else 0) + CountSchedulable(emails[1..], loads)
  }

  lemma {:induction false} CountAppend(vs: seq<Verdict>, v: Verdict)
    ensures CountAccepted(vs + [v]) == CountAccepted(vs) + (if v.Accepted? then 1 else 0)
  {
    if vs != [] {
      assert (vs + [v])[0] == vs[0];
      assert (vs + [v])[1..] == vs[1..] + [v];
      CountAppend(vs[1..], v);
    }
  }

  /** `scheduling_count` is the number of accepting verdicts, whether or
      not their entries could be cached. */
  lemma {:induction false} CountIsAccepted(vs: seq<Verdict>)
    ensures Fold(vs).count == CountAccepted(vs)
  {
    if vs != [] {
      var init, last := vs[..|vs| - 1], vs[|vs| - 1];
      assert vs == init + [last];
      CountIsAccepted(init);
      CountAppend(init, last);
    }
  }

  /** The accepting verdicts of a pass are those of the emails the
      classifier accepts. */
  lemma {:induction false} AcceptedAreSchedulable(emails: seq<Scanned>, loads: JsonLoads)
    ensures CountAccepted(Verdicts(emails, loads)) == CountSchedulable(emails, loads)
  {
    if emails != [] {
      var vs := Verdicts(emails, loads);
      assert vs[1..] == Verdicts(emails[1..], loads) by {
        AcceptedAreSchedulableTail(emails, loads);
      }
      assert vs[0] == Classify(emails[0], loads);
      AcceptedAreSchedulable(emails[1..], loads);
    }
  }

  lemma AcceptedAreSchedulableTail(emails: seq<Scanned>, loads: JsonLoads)
    requires emails != []
    ensures Verdicts(emails, loads)[1..] == Verdicts(emails[1..], loads)
  {
    var vs, ws := Verdicts(emails, loads), Verdicts(emails[1..], loads);
    assert forall i :: 0 <= i < |ws| ==> ws[i] == Classify(emails[1..][i], loads) == vs[i + 1];
  }

  /** `scheduling_count` is the number of emails the classifier accepted. */
  lemma CountIsSchedulable(emails: seq<Scanned>, loads: JsonLoads)
    ensures Fold(Verdicts(emails, loads)).count == CountSchedulable(emails, loads)
  {
    CountIsAccepted(Verdicts(emails, loads));
    AcceptedAreSchedulable(emails, loads);
  }

  /** No later write uses the key of write `i`. */
  predicate LastWriteOfKey(w: seq<Write>, i: nat)
    requires i < |w|
  {
    forall j :: i < j < |w| ==> w[j].0 != w[i].0
  }

  /** The cache holds exactly the keys the pass wrote. */
  lemma {:induction false} CacheKeysAreWritten(vs: seq<Verdict>)
    ensures forall k :: k in Fold(vs).cache <==> exists i :: 0 <= i < |Writes(vs)| && Writes(vs)[i].0 == k
  {
    if vs != [] {
      var init, last := vs[..|vs| - 1], vs[|vs| - 1];
      CacheKeysAreWritten(init);
      var w0, w, c0, c := Writes(init), Writes(vs), Fold(init).cache, Fold(vs).cache;
      var writes := last.Accepted? && last.write.Some?;
      assert forall i :: 0 <= i < |w0| ==> w[i] == w0[i];
      assert writes ==> |w| == |w0| + 1 && c == c0[w[|w0|].0 := w[|w0|].1];
      assert !writes ==> |w| == |w0| && c == c0;
      forall k | k in c
        ensures exists i :: 0 <= i < |w| && w[i].0 == k
      {
        if writes && k == w[|w0|].0 {
          assert w[|w0|].0 == k;
        } else {
          assert k in c0;
          var i :| 0 <= i < |w0| && w0[i].0 == k;
          assert w[i].0 == k;
        }
      }
      forall i | 0 <= i < |w|
        ensures w[i].0 in c
      {
        if i < |w0| {
          assert w[i] == w0[i];
        }
      }
    } else {
      assert Fold(vs).cache == map[] && Writes(vs) == [];
    }
  }


  /** Last write wins: under each written key the cache holds the entry
      written last. */
  lemma {:induction false} LastWriteWins(vs: seq<Verdict>)
    ensures forall i :: 0 <= i < |Writes(vs)| && LastWriteOfKey(Writes(vs), i) ==>
      Writes(vs)[i].0 in Fold(vs).cache && Fold(vs).cache[Writes(vs)[i].0] == Writes(vs)[i].1
  {
    if vs != [] {
      var init, last := vs[..|vs| - 1], vs[|vs| - 1];
      LastWriteWins(init);
      var w0, w, c := Writes(init), Writes(vs), Fold(vs).cache;
      assert forall i :: 0 <= i < |w0| ==> w[i] == w0[i];
      if last.Accepted? && last.write.Some? {
        var n := |w0|;
        assert w == w0 + [last.write.value];
        assert c == Fold(init).cache[w[n].0 := w[n].1];
        forall i | 0 <= i < |w| && LastWriteOfKey(w, i)
          ensures w[i].0 in c && c[w[i].0] == w[i].1
        {
          if i < n {
            assert w[n].0 != w[i].0;
            assert LastWriteOfKey(w0, i) by {
              forall j | i < j < |w0| ensures w0[j].0 != w0[i].0 {
                assert w[j] == w0[j];
              }
            }
          }
        }
      }
    }
  }


  /** Adding a key to a map adds at most one entry. */
  lemma UpdateSize(m: Cache, k: Json, v: CacheEntry)
    ensures |m[k := v]| <= |m| + 1
    ensures k !in m ==> |m[k := v]| == |m| + 1
  {
    if k in m {
      assert m[k := v].Keys == m.Keys;
    } else {
      assert m[k := v].Keys == m.Keys + {k};
    }
  }

  /** The cache never holds more entries than `scheduling_count`. */
  lemma {:induction false} CacheNoLargerThanCount(vs: seq<Verdict>)
    ensures |Fold(vs).cache| <= Fold(vs).count
  {
    if vs != [] {
      var init, last := vs[..|vs| - 1], vs[|vs| - 1];
      CacheNoLargerThanCount(init);
      if last.Accepted? && last.write.Some? {
        UpdateSize(Fold(init).cache, last.write.value.0, last.write.value.1);
      }
    }
  }

  /** A pass in which nothing is accepted leaves the cache empty and the
      count at zero. */
  lemma {:induction false} NothingAccepted(vs: seq<Verdict>)
    requires forall i :: 0 <= i < |vs| ==> !vs[i].Accepted?
    ensures Fold(vs) == Pass(map[], 0)
  {
    if vs != [] {
      NothingAccepted(vs[..|vs| - 1]);
      assert !vs[|vs| - 1].Accepted?;
    }
  }

  /** As written, extraction raises `NameError` for every snippet, so every
      fetch pass finds nothing and leaves the cache empty. */
  lemma FetchAsWritten(emails: seq<Scanned>, replies: seq<seq<Field>>, loads: JsonLoads)
    requires |replies| == |emails|
    requires forall i :: 0 <= i < |emails| ==> emails[i].extracted == ExtractScheduleAsWritten(replies[i])
    ensures Fold(Verdicts(emails, loads)) == Pass(map[], 0)
  {
    NothingAccepted(Verdicts(emails, loads));
  }

  /** Every accepting verdict carries a write. */
  predicate EntriesComplete(vs: seq<Verdict>) {
    forall i :: 0 <= i < |vs| && vs[i].Accepted? ==> vs[i].write.Some?
  }

  /** No two writes share a key. */
  predicate DistinctKeys(w: seq<Write>) {
    forall i, j :: 0 <= i < j < |w| ==> w[i].0 != w[j].0
  }

  /** When every accepted email has a complete entry and the ids are
      distinct, the cache has exactly `scheduling_count` entries. */
  lemma {:induction false} CacheMatchesCount(vs: seq<Verdict>)
    requires EntriesComplete(vs) && DistinctKeys(Writes(vs))
    ensures |Fold(vs).cache| == Fold(vs).count
  {
    if vs != [] {
      var init, last := vs[..|vs| - 1], vs[|vs| - 1];
      var w0, w := Writes(init), Writes(vs);
      assert forall i :: 0 <= i < |w0| ==> w[i] == w0[i];
      assert EntriesComplete(init) by {
        assert forall i :: 0 <= i < |init| ==> init[i] == vs[i];
      }
      assert DistinctKeys(w0);
      CacheMatchesCount(init);
      if last.Accepted? {
        assert last.write.Some?;
        var k := last.write.value.0;
        CacheKeysAreWritten(init);
        assert k !in Fold(init).cache by {
          assert w[|w0|].0 == k;
        }
        UpdateSize(Fold(init).cache, k, last.write.value.1);
      }
    }
  }

  /** An iteration that does not accept, because it raised or because the
      classifier said no, leaves the pass exactly as if the email had not
      been in the list, wherever it stands. */
  lemma {:induction false} NonAcceptedIgnored(before: seq<Verdict>, v: Verdict, after: seq<Verdict>)
    requires !v.Accepted?
    ensures Fold(before + [v] + after) == Fold(before + after)
  {
    if after == [] {
      assert before + [v] + after == before + [v];
      assert (before + [v])[..|before|] == before;
      assert before + after == before;
    } else {
      var init, last := after[..|after| - 1], after[|after| - 1];
      NonAcceptedIgnored(before, v, init);
      var xs, ys := before + [v] + after, before + after;
      assert xs[..|xs| - 1] == before + [v] + init && xs[|xs| - 1] == last;
      assert ys[..|ys| - 1] == before + init && ys[|ys| - 1] == last;
    }
  }

  // ---------------------------------------------------------------------
  // The decode-error handler

  /** Line 108 of this iteration assigned `structured`: the subject could
      be sliced and the extraction returned. */
  predicate BindsStructured(e: Scanned) {
    Sliceable(Lookup(e.email, "subject").GetOr(Str("No subject"))) && e.extracted.Success?
  }

  /** The iteration reaches the `JSONDecodeError` handler of lines 160-163
      before line 108 assigns `structured`: the model server's reply body
      could not be decoded. */
  predicate DecodeErrorFirst(e: Scanned) {
    Sliceable(Lookup(e.email, "subject").GetOr(Str("No subject"))) && e.extracted == Failure(ReplyNotJson)
  }

  /** Some iteration in `[i, k)` assigned `structured`. */
  predicate BoundBefore(emails: seq<Scanned>, i: nat, k: nat)
    requires i <= k <= |emails|
  {
    exists j :: i <= j < k && BindsStructured(emails[j])
  }

  /** The first iteration from `i` on whose `JSONDecodeError` handler reads
      `structured` while no iteration since `i` has assigned it; the read
      raises `UnboundLocalError`, which leaves the loop. `None` when every
      such handler comes after an assignment. */
  function UnboundFrom(emails: seq<Scanned>, i: nat): (r: Option<nat>)
    requires i <= |emails|
    ensures r.Some? ==> i <= r.value < |emails| && DecodeErrorFirst(emails[r.value])
    decreases |emails| - i
  {
    if i == |emails| then None
    else if DecodeErrorFirst(emails[i]) then Some(i)
    else if BindsStructured(emails[i]) then None
    else UnboundFrom(emails, i + 1)
  }

  /** `UnboundFrom` finds the first decode error with no assignment before
      it, and finds nothing exactly when every decode error has one. */
  lemma {:induction false} UnboundFromMeans(emails: seq<Scanned>, i: nat)
    requires i <= |emails|
    ensures UnboundFrom(emails, i).Some? ==>
      forall j :: i <= j < UnboundFrom(emails, i).value ==> !BindsStructured(emails[j])
    ensures UnboundFrom(emails, i).None? <==>
      forall k :: i <= k < |emails| && DecodeErrorFirst(emails[k]) ==> BoundBefore(emails, i, k)
    decreases |emails| - i
  {
    if i < |emails| && !DecodeErrorFirst(emails[i]) {
      if BindsStructured(emails[i]) {
        assert forall k :: i < k < |emails| ==> BoundBefore(emails, i, k);
      } else {
        UnboundFromMeans(emails, i + 1);
        assert forall k :: i + 1 <= k < |emails| ==> (BoundBefore(emails, i, k) <==> BoundBefore(emails, i + 1, k));
      }
    } else if i < |emails| {
      assert !BoundBefore(emails, i, i);
    }
  }

  /** An iteration the handler does not end either assigns `structured`,
      after which no handler can fail, or hands the search on. */
  lemma UnboundStep(emails: seq<Scanned>, i: nat, bound: bool)
    requires i < |emails| && (bound || !DecodeErrorFirst(emails[i]))
    requires UnboundFrom(emails, 0) == if bound then None else UnboundFrom(emails, i)
    ensures UnboundFrom(emails, 0) ==
      if bound || BindsStructured(emails[i]) then None else UnboundFrom(emails, i + 1)
  {
  }

  /** The decode error ends the loop when nothing has assigned
      `structured`, with the cache and count still at their initial values. */
  lemma UnboundExit(emails: seq<Scanned>, i: nat, loads: JsonLoads, p: Pass)
    requires i < |emails| && DecodeErrorFirst(emails[i])
    requires UnboundFrom(emails, 0) == UnboundFrom(emails, i)
    requires p == Fold(Verdicts(emails[..i], loads))
    ensures UnboundFrom(emails, 0) == Some(i) && p == Pass(map[], 0)
  {
    UnboundLeavesCacheEmpty(emails, loads);
  }

  /** No iteration before the one that raises `UnboundLocalError` reached
      the classifier, so the cache it leaves behind is empty. */
  lemma UnboundLeavesCacheEmpty(emails: seq<Scanned>, loads: JsonLoads)
    requires UnboundFrom(emails, 0).Some?
    ensures Fold(Verdicts(emails[..UnboundFrom(emails, 0).value], loads)) == Pass(map[], 0)
  {
    var k := UnboundFrom(emails, 0).value;
    UnboundFromMeans(emails, 0);
    var vs := Verdicts(emails[..k], loads);
    forall j | 0 <= j < |vs|
      ensures !vs[j].Accepted?
    {
      assert !BindsStructured(emails[j]);
      assert vs[j] == Classify(emails[j], loads);
    }
    NothingAccepted(vs);
  }

  /** `fetch_emails` answers. */
  datatype FetchResponse =
    | NotConnected                                     // {"error": "Gmail service not initialized"}, 500
    | ReaderFailed                                     // {"error": str(e)}, 500
    | LoopFailed(unbound: string)                      // {"error": str(e)}, 500, for `UnboundLocalError`
    | Fetched(count: nat, found: nat, message: string) // {"success": True, ...}

  /** `fetch_emails`: the answer and the cache it leaves. The inbox is
      `None` when `get_unread_emails` raised; the cache is emptied only
      after the inbox has been read. */
  function FetchEmails(connected: bool, inbox: Option<seq<Scanned>>, cache: Cache, loads: JsonLoads): (r: (FetchResponse, Cache))
    ensures !connected ==> r == (NotConnected, cache)
    ensures connected && inbox.None? ==> r == (ReaderFailed, cache)
    ensures connected && inbox.Some? && UnboundFrom(inbox.value, 0).Some? ==> r == (LoopFailed("structured"), map[])
    ensures connected && inbox.Some? && UnboundFrom(inbox.value, 0).None? ==>
      r.0.Fetched? && r.0.count == |inbox.value| && r.0.found == CountSchedulable(inbox.value, loads)
        && r.1 == Fold(Verdicts(inbox.value, loads)).cache
  {
    if !connected then (NotConnected, cache)
    else match inbox
      case None => (ReaderFailed, cache)
      case Some(emails) =>
        match UnboundFrom(emails, 0)
        case Some(k) =>
          UnboundLeavesCacheEmpty(emails, loads);
          (LoopFailed("structured"), Fold(Verdicts(emails[..k], loads)).cache)
        case None =>
          var pass := Fold(Verdicts(emails, loads));
          CountIsSchedulable(emails, loads);
          (Fetched(|emails|, pass.count,
             "Fetched " + NatToDecimal(|emails|) + " emails. Found " + NatToDecimal(pass.count)
               + " emails with scheduling content."),
           pass.cache)
  }

  /** A pass forgets the previous cache: what it leaves depends only on
      the emails read, and every key it holds was written by the pass. */
  lemma PassForgetsOldCache(inbox: seq<Scanned>, old1: Cache, old2: Cache, loads: JsonLoads)
    ensures FetchEmails(true, Some(inbox), old1, loads).1 == FetchEmails(true, Some(inbox), old2, loads).1
    ensures forall k :: k in FetchEmails(true, Some(inbox), old1, loads).1 ==>
      exists i :: 0 <= i < |Writes(Verdicts(inbox, loads))| && Writes(Verdicts(inbox, loads))[i].0 == k
  {
    var vs := Verdicts(inbox, loads);
    var c := FetchEmails(true, Some(inbox), old1, loads).1;
    assert c == FetchEmails(true, Some(inbox), old2, loads).1;
    if UnboundFrom(inbox, 0).None? {
      assert c == Fold(vs).cache;
      forall k | k in c
        ensures exists i :: 0 <= i < |Writes(vs)| && Writes(vs)[i].0 == k
      {
        CacheKeysAreWritten(vs);
      }
    } else {
      assert c == map[];
    }
    assert Writes(vs) == Writes(Verdicts(inbox, loads));
  }

  /** As written, no snippet ever assigns `structured`, so the first email
      whose subject can be sliced and whose reply body does not decode
      ends the request with the 500. */
  lemma FetchAsWrittenFailsOnUndecodableReply(emails: seq<Scanned>, k: nat, loads: JsonLoads)
    requires k < |emails| && DecodeErrorFirst(emails[k])
    requires forall i :: 0 <= i < |emails| ==> emails[i].extracted.Failure?
    ensures FetchEmails(true, Some(emails), map[], loads).0 == LoopFailed("structured")
  {
    UnboundFromMeans(emails, 0);
    assert !BoundBefore(emails, 0, k);
  }

  /** One more email extends the fold by one step. */
  lemma FoldPrefixStep(emails: seq<Scanned>, i: nat, loads: JsonLoads)
    requires i < |emails|
    ensures Fold(Verdicts(emails[..i + 1], loads)) == Step(Fold(Verdicts(emails[..i], loads)), Classify(emails[i], loads))
  {
    assert emails[..i + 1][..i] == emails[..i];
  }

  /** What a pass over all the emails leaves: the classifier's count, a
      cache no larger than it, holding exactly the written keys. */
  lemma WholePass(emails: seq<Scanned>, loads: JsonLoads)
    ensures Fold(Verdicts(emails, loads)).count == CountSchedulable(emails, loads)
    ensures |Fold(Verdicts(emails, loads)).cache| <= Fold(Verdicts(emails, loads)).count
    ensures forall k :: k in Fold(Verdicts(emails, loads)).cache <==>
      exists i :: 0 <= i < |Writes(Verdicts(emails, loads))| && Writes(Verdicts(emails, loads))[i].0 == k
  {
    CountIsSchedulable(emails, loads);
    CacheNoLargerThanCount(Verdicts(emails, loads));
    CacheKeysAreWritten(Verdicts(emails, loads));
  }

  /** The loop of `fetch_emails`, one email at a time; `failed` when it
      leaves by `UnboundLocalError`. */
  method RunPass(emails: seq<Scanned>, loads: JsonLoads) returns (cache: Cache, count: nat, failed: bool)
    ensures failed <==> UnboundFrom(emails, 0).Some?
    ensures failed ==> cache == map[] && count == 0
    ensures !failed ==> count == CountSchedulable(emails, loads)
    ensures |cache| <= count
    ensures !failed ==> forall k :: k in cache <==>
      exists i :: 0 <= i < |Writes(Verdicts(emails, loads))| && Writes(Verdicts(emails, loads))[i].0 == k
  {
    cache, count, failed := map[], 0, false;
    var bound := false;
    var i := 0;
    while i < |emails|
      invariant 0 <= i <= |emails|
      invariant Pass(cache, count) == Fold(Verdicts(emails[..i], loads))
      invariant bound ==> UnboundFrom(emails, 0).None?
      invariant !bound ==> UnboundFrom(emails, 0) == UnboundFrom(emails, i)
    {
      if !bound && DecodeErrorFirst(emails[i]) {
        UnboundExit(emails, i, loads, Pass(cache, count));
        return cache, count, true;
      }
      UnboundStep(emails, i, bound);
      FoldPrefixStep(emails, i, loads);
      var p := Step(Pass(cache, count), Classify(emails[i], loads));
      cache, count := p.cache, p.count;
      bound := bound || BindsStructured(emails[i]);
      i := i + 1;
    }
    assert emails[..i] == emails;
    WholePass(emails, loads);
  }
}
