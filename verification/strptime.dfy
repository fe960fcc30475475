/** The part of CPython's `datetime.strptime` that the calendar code relies
    on. `_strptime` turns a format into a regular expression compiled with
    IGNORECASE, requires it to match the whole input, converts the named
    groups to numbers and lets `datetime` reject impossible dates and times.
    Matching is modelled as a scan that, for each directive, takes the first
    alternative of its expression that matches where the scan stands. For the
    formats used here every numeric directive is followed by a non-digit or
    by the end of the input, so backtracking into a shorter alternative could
    never succeed where the first one failed, and the scan agrees with the
    regular-expression engine. */
module Strptime {
  import opened Wrappers
  import opened Text

  /** One element of a format string. */
  datatype Directive =
    | Year          // %Y
    | Month         // %m
    | Day           // %d
    | Hour24        // %H
    | Hour12        // %I
    | Minute        // %M
    | Second        // %S
    | AmPm          // %p
    | MonthName     // %B
    | WeekdayName   // %A
    | Spaces        // whitespace in the format, which becomes `\s+`
    | Lit(c: char)  // any other character of the format

  type Format = seq<Directive>

  /** One position of a generated regular expression. */
  datatype CharClass =
    | Digit                     // \d, ASCII digits only
    | Range(lo: char, hi: char) // [lo-hi]
    | Exactly(c: char)          // a literal, compared ignoring case

  predicate InClass(c: char, k: CharClass) {
    match k
    case Digit => IsDigit(c)
    case Range(lo, hi) => lo <= c <= hi
    case Exactly(x) => LowerChar(c) == LowerChar(x)
  }

  /** A fixed-length expression: one class per character. */
  type Pattern = seq<CharClass>

  /** The text `s` begins with a match of `p`. */
  predicate StartsWithPattern(s: string, p: Pattern) {
    |p| <= |s| && forall i :: 0 <= i < |p| ==> InClass(s[i], p[i])
  }

  predicate IsNumeric(d: Directive) {
    d.Year? || d.Month? || d.Day? || d.Hour24? || d.Hour12? || d.Minute? || d.Second?
  }

  const MonthNames: seq<string> := ["january", "february", "march", "april", "may", "june",
    "july", "august", "september", "october", "november", "december"]

  const WeekdayNames: seq<string> :=
    ["monday", "tuesday", "wednesday", "thursday", "friday", "saturday", "sunday"]

  const AmPmNames: seq<string> := ["am", "pm"]

  /** A name as a pattern of literal letters. */
  function Word(w: string): (p: Pattern)
    ensures |p| == |w| && forall i :: 0 <= i < |w| ==> p[i] == Exactly(w[i])
  {
    seq(|w|, i requires 0 <= i < |w| => Exactly(w[i]))
  }

  /** The names as patterns, in the same order. */
  function Words(names: seq<string>): (ps: seq<Pattern>)
    ensures |ps| == |names| && forall k :: 0 <= k < |names| ==> ps[k] == Word(names[k])
  {
    seq(|names|, k requires 0 <= k < |names| => Word(names[k]))
  }

  /** The alternatives of the expression `_strptime` emits for a directive,
      in the order the regular expression tries them. CPython lists the
      names longest first; no name is a prefix of another, so at most one of
      them can match at a position and the order of the names is immaterial. */
  function Alternatives(d: Directive): (alts: seq<Pattern>)
    requires !d.Spaces?
  {
    match d
    case Year => [[Digit, Digit, Digit, Digit]]
    case Month => [[Exactly('1'), Range('0', '2')], [Exactly('0'), Range('1', '9')], [Range('1', '9')]]
    case Day =>
      [[Exactly('3'), Range('0', '1')], [Range('1', '2'), Digit], [Exactly('0'), Range('1', '9')],
       [Range('1', '9')], [Exactly(' '), Range('1', '9')]]
    case Hour24 => [[Exactly('2'), Range('0', '3')], [Range('0', '1'), Digit], [Digit]]
    case Hour12 => [[Exactly('1'), Range('0', '2')], [Exactly('0'), Range('1', '9')], [Range('1', '9')]]
    case Minute => [[Range('0', '5'), Digit], [Digit]]
    case Second => [[Exactly('6'), Range('0', '1')], [Range('0', '5'), Digit], [Digit]]
    case AmPm => Words(AmPmNames)
    case MonthName => Words(MonthNames)
    case WeekdayName => Words(WeekdayNames)
    case Lit(c) => [[Exactly(c)]]
  }

  /** Index of the first alternative that matches at the start of `s`. */
  function FirstAlternative(s: string, alts: seq<Pattern>): (r: Option<nat>)
    ensures r.Some? ==> r.value < |alts| && StartsWithPattern(s, alts[r.value])
    ensures r.Some? ==> forall j :: 0 <= j < r.value ==> !StartsWithPattern(s, alts[j])
    ensures r.None? <==> forall j :: 0 <= j < |alts| ==> !StartsWithPattern(s, alts[j])
    decreases |alts|
  {
    if alts == [] then None
    else if StartsWithPattern(s, alts[0]) then Some(0)
    else
      var r := FirstAlternative(s, alts[1..]);
      assert forall j :: 1 <= j < |alts| ==> alts[j] == alts[1..][j - 1];
      match r
      case None => None
      case Some(k) => Some(k + 1)
  }

  /** Length of the run of whitespace `\s+` consumes at the start of `s`. */
  function SpaceRun(s: string): (n: nat)
    ensures n <= |s|
    ensures forall i :: 0 <= i < n ==> IsSpace(s[i])
    ensures n < |s| ==> !IsSpace(s[n])
    decreases |s|
  {
    if s != [] && IsSpace(s[0]) then 1 + SpaceRun(s[1..]) else 0
  }

  function DigitOrZero(c: char): (d: nat)
    ensures d < 10
  {
    if IsDigit(c) then DigitValue(c) else 0
  }

  /** `int(t)` on the text a numeric directive matched: ASCII digits, after
      at most one leading space, which contributes nothing. */
  function IntOf(t: string): nat {
    if t == [] then 0 else IntOf(t[..|t| - 1]) * 10 + DigitOrZero(t[|t| - 1])
  }

  /** What one directive consumed and the number it stands for. */
  datatype Token = Token(length: nat, value: nat)

  /** Smallest and largest number the expression of a numeric directive admits. */
  function Low(d: Directive): nat
    requires IsNumeric(d)
  {
    match d
    case Year => 0
    case Month => 1
    case Day => 1
    case Hour24 => 0
    case Hour12 => 1
    case Minute => 0
    case Second => 0
  }

  function High(d: Directive): nat
    requires IsNumeric(d)
  {
    match d
    case Year => 9999
    case Month => 12
    case Day => 31
    case Hour24 => 23
    case Hour12 => 12
    case Minute => 59
    case Second => 61
  }

  /** The value `_strptime` derives from the `k`-th alternative matching `text`:
      the number for numeric directives, the month number for `%B`, the
      position in the week for `%A`, and 0 for am, 1 for pm. */
  function TokenValue(d: Directive, k: nat, text: string): nat {
    if IsNumeric(d) then IntOf(text)
    else if d.MonthName? then k + 1
    else if d.WeekdayName? || d.AmPm? then k
    else 0
  }

  /** The value a directive produced is one its expression admits. */
  predicate ValueFits(d: Directive, v: nat) {
    && (IsNumeric(d) ==> Low(d) <= v <= High(d))
    && (d.MonthName? ==> 1 <= v <= 12)
    && (d.AmPm? ==> v <= 1)
  }

  /** Matches one directive at the start of `s`. */
  function Scan(d: Directive, s: string): (r: Option<Token>)
    ensures r.Some? ==> r.value.length <= |s| && ValueFits(d, r.value.value)
    ensures d.Spaces? ==> (r.None? <==> s == [] || !IsSpace(s[0]))
  {
    if d.Spaces? then
      var n := SpaceRun(s);
      if n == 0 then None else Some(Token(n, 0))
    else
      match FirstAlternative(s, Alternatives(d))
      case None => None
      case Some(k) =>
        var n := |Alternatives(d)[k]|;
        if IsNumeric(d) then
          NumericAlternativeInRange(d, s, k);
          Some(Token(n, IntOf(s[..n])))
        else
          Some(Token(n, TokenValue(d, k, s[..n])))
  }

  lemma IntOfShort(t: string)
    ensures |t| == 1 ==> IntOf(t) == DigitOrZero(t[0])
    ensures |t| == 2 ==> IntOf(t) == 10 * DigitOrZero(t[0]) + DigitOrZero(t[1])
  {
    if |t| == 2 {
      assert t[..1][..0] == [];
    } else if |t| == 1 {
      assert t[..0] == [];
    }
  }

  /** `n` digits never make a number of `n + 1` digits. */
  lemma {:induction false} IntOfBound(t: string)
    ensures IntOf(t) < Pow10(|t|)
  {
    if t != [] {
      IntOfBound(t[..|t| - 1]);
    }
  }

  function Pow10(n: nat): (r: nat)
    ensures r >= 1
  {
    if n == 0 then 1 else 10 * Pow10(n - 1)
  }

  /** The alternatives of each numeric directive only admit its range. */
  lemma NumericAlternativeInRange(d: Directive, s: string, k: nat)
    requires IsNumeric(d) && k < |Alternatives(d)| && StartsWithPattern(s, Alternatives(d)[k])
    ensures Low(d) <= IntOf(s[..|Alternatives(d)[k]|]) <= High(d)
  {
    var p := Alternatives(d)[k];
    var t := s[..|p|];
    assert forall i :: 0 <= i < |p| ==> InClass(t[i], p[i]);
    if d.Year? {
      IntOfBound(t);
      assert Pow10(4) == 10000;
    } else {
      IntOfShort(t);
      if |p| == 2 {
        assert InClass(t[0], p[0]) && InClass(t[1], p[1]);
      } else {
        assert InClass(t[0], p[0]);
      }
    }
  }

  /** The groups a match captured, by directive. */
  datatype Fields = Fields(
    year: Option<nat>, month: Option<nat>, day: Option<nat>,
    hour24: Option<nat>, hour12: Option<nat>, minute: Option<nat>,
    second: Option<nat>, pm: Option<bool>)

  const NoFields := Fields(None, None, None, None, None, None, None, None)

  /** Every captured number lies in its directive's range. */
  predicate FieldsInRange(f: Fields) {
    && (f.year.Some? ==> f.year.value <= 9999)
    && (f.month.Some? ==> 1 <= f.month.value <= 12)
    && (f.day.Some? ==> 1 <= f.day.value <= 31)
    && (f.hour24.Some? ==> f.hour24.value <= 23)
    && (f.hour12.Some? ==> 1 <= f.hour12.value <= 12)
    && (f.minute.Some? ==> f.minute.value <= 59)
    && (f.second.Some? ==> f.second.value <= 61)
  }

  /** Records the value of one matched directive; `%B` sets the month as `%m`
      does. The weekday is matched but not kept: without a week number
      `_strptime` does not use it. */
  function Store(f: Fields, d: Directive, v: nat): Fields {
    match d
    case Year => f.(year := Some(v))
    case Month => f.(month := Some(v))
    case Day => f.(day := Some(v))
    case Hour24 => f.(hour24 := Some(v))
    case Hour12 => f.(hour12 := Some(v))
    case Minute => f.(minute := Some(v))
    case Second => f.(second := Some(v))
    case AmPm => f.(pm := Some(v == 1))
    case MonthName => f.(month := Some(v))
    case _ => f
  }

  /** The whole of `s` matches `fmt`; `None` when the expression does not
      match or leaves unconverted data. */
  function Match(fmt: Format, s: string, f: Fields): (r: Option<Fields>)
    requires FieldsInRange(f)
    ensures r.Some? ==> FieldsInRange(r.value)
    decreases |fmt|
  {
    if fmt == [] then
      if s == [] then Some(f) else None
    else
      match Scan(fmt[0], s)
      case None => None
      case Some(t) =>
        StoreInRange(f, fmt[0], t.value);
        Match(fmt[1..], s[t.length..], Store(f, fmt[0], t.value))
  }

  lemma StoreInRange(f: Fields, d: Directive, v: nat)
    requires FieldsInRange(f) && ValueFits(d, v)
    ensures FieldsInRange(Store(f, d, v))
  {
  }

  datatype Date = Date(year: int, month: int, day: int)
  datatype Clock = Clock(hour: int, minute: int, second: int)
  datatype DateTime = DateTime(date: Date, clock: Clock)

  const Midnight := Clock(0, 0, 0)

  predicate IsLeapYear(y: int) {
    y % 4 == 0 && (y % 100 != 0 || y % 400 == 0)
  }

  function DaysInMonth(y: int, m: int): (n: int)
    requires 1 <= m <= 12
    ensures 28 <= n <= 31
  {
    if m == 2 then (if IsLeapYear(y) then 29 else 28)
    else if m == 4 || m == 6 || m == 9 || m == 11 then 30
    else 31
  }

  /** A date `datetime.date` accepts. */
  predicate ValidDate(d: Date) {
    1 <= d.year <= 9999 && 1 <= d.month <= 12 && 1 <= d.day <= DaysInMonth(d.year, d.month)
  }

  /** A time of day `datetime.time` accepts (no fractions of a second here). */
  predicate ValidClock(c: Clock) {
    0 <= c.hour < 24 && 0 <= c.minute < 60 && 0 <= c.second < 60
  }

  /** The hour `_strptime` computes from `%I` and `%p`: 12 am is hour 0,
      12 pm is hour 12, and other pm hours move on by twelve. */
  function To24(hour12: nat, pm: Option<bool>): (h: nat)
    requires 1 <= hour12 <= 12
    ensures h < 24
    ensures h % 12 == hour12 % 12
    ensures h >= 12 <==> pm == Some(true)
  {
    if pm == Some(true) then (if hour12 == 12 then 12 else hour12 + 12)
    else (if hour12 == 12 then 0 else hour12)
  }

  /** The 12-hour reading of an hour of the day. */
  function From24(h: nat): (r: (nat, bool))
    requires h < 24
    ensures 1 <= r.0 <= 12
  {
    (if h % 12 == 0 then 12 else h % 12, h >= 12)
  }

  /** The two clocks are the same: every hour has exactly one 12-hour reading. */
  lemma TwelveHourRoundTrip(h: nat, hour12: nat, pm: bool)
    requires h < 24 && 1 <= hour12 <= 12
    ensures To24(From24(h).0, Some(From24(h).1)) == h
    ensures From24(To24(hour12, Some(pm))) == (hour12, pm)
  {
  }

  /** Turns the captured groups into a `datetime`, with the defaults
      `_strptime` uses (year 1900, January, day 1, midnight) and the checks
      `datetime` makes: year at least 1, day within the month, second below 60.
      A year-less 29 February is checked against 1900 and so rejected. */
  function Assemble(f: Fields): (r: Option<DateTime>)
    requires FieldsInRange(f)
    ensures r.Some? ==> ValidDate(r.value.date) && ValidClock(r.value.clock)
    ensures r.Some? ==> r.value.date.year == f.year.GetOr(1900)
    ensures r.Some? ==>
      r.value.clock.hour == (if f.hour12.Some? then To24(f.hour12.value, f.pm) else f.hour24.GetOr(0))
    ensures r.None? <==>
      f.year.GetOr(1900) == 0
      || f.day.GetOr(1) > DaysInMonth(f.year.GetOr(1900), f.month.GetOr(1))
      || f.second.GetOr(0) > 59
  {
    var year, month, day := f.year.GetOr(1900), f.month.GetOr(1), f.day.GetOr(1);
    var hour := if f.hour12.Some? then To24(f.hour12.value, f.pm) else f.hour24.GetOr(0);
    var minute, second := f.minute.GetOr(0), f.second.GetOr(0);
    if year < 1 || day > DaysInMonth(year, month) || second > 59 then None
    else Some(DateTime(Date(year, month, day), Clock(hour, minute, second)))
  }

  /** `datetime.strptime(s, fmt)`, or `None` where it raises `ValueError`. */
  function Parse(fmt: Format, s: string): (r: Option<DateTime>)
    ensures r.Some? ==> ValidDate(r.value.date) && ValidClock(r.value.clock)
  {
    match Match(fmt, s, NoFields)
    case None => None
    case Some(f) => Assemble(f)
  }

  /** Index of the first format, in order, under which `s` parses. */
  function FirstParsing(fmts: seq<Format>, s: string): (r: Option<nat>)
    ensures r.Some? ==> r.value < |fmts| && Parse(fmts[r.value], s).Some?
    ensures r.Some? ==> forall j :: 0 <= j < r.value ==> Parse(fmts[j], s).None?
    ensures r.None? <==> forall j :: 0 <= j < |fmts| ==> Parse(fmts[j], s).None?
    decreases |fmts|
  {
    if fmts == [] then None
    else if Parse(fmts[0], s).Some? then Some(0)
    else
      var r := FirstParsing(fmts[1..], s);
      assert forall j :: 1 <= j < |fmts| ==> fmts[j] == fmts[1..][j - 1];
      match r
      case None => None
      case Some(k) => Some(k + 1)
  }
}

/** What the scan yields on zero-padded numbers, the form `strftime` and
    `isoformat` write. */
module StrptimeProperties {
  import opened Wrappers
  import opened Text
  import opened Strptime

  /** `n` as two digits, as `%02d` writes it. */
  function Pad2(n: nat): (r: string)
    requires n < 100
    ensures |r| == 2 && IsDigit(r[0]) && IsDigit(r[1])
  {
    [DigitChar(n / 10), DigitChar(n % 10)]
  }

  /** `n` as four digits, as `%04d` writes it. */
  function Pad4(n: nat): (r: string)
    requires n < 10000
    ensures |r| == 4 && forall i :: 0 <= i < 4 ==> IsDigit(r[i])
  {
    Pad2(n / 100) + Pad2(n % 100)
  }

  lemma IntOfPad2(n: nat)
    requires n < 100
    ensures IntOf(Pad2(n)) == n
  {
    IntOfShort(Pad2(n));
  }

  lemma IntOfPad4(n: nat)
    requires n < 10000
    ensures IntOf(Pad4(n)) == n
  {
    var t := Pad4(n);
    var a, b := Pad2(n / 100), Pad2(n % 100);
    assert t[..3] == a + [b[0]];
    assert t[..3][..2] == a;
    IntOfPad2(n / 100);
    assert IntOf(t[..3]) == IntOf(a) * 10 + DigitValue(b[0]);
    assert IntOf(t) == IntOf(t[..3]) * 10 + DigitValue(b[1]);
  }

  lemma ScanYear(y: nat, rest: string)
    requires y < 10000
    ensures Scan(Year, Pad4(y) + rest) == Some(Token(4, y))
  {
    var s := Pad4(y) + rest;
    var p := Alternatives(Year)[0];
    assert s[..4] == Pad4(y);
    assert forall i :: 0 <= i < 4 ==> s[i] == Pad4(y)[i];
    assert StartsWithPattern(s, p);
    IntOfPad4(y);
  }

  /** The first alternative matching decides the token. */
  lemma ScanByAlternative(d: Directive, s: string, k: nat)
    requires IsNumeric(d) && k < |Alternatives(d)| && StartsWithPattern(s, Alternatives(d)[k])
    requires forall j :: 0 <= j < k ==> !StartsWithPattern(s, Alternatives(d)[j])
    ensures Scan(d, s) == Some(Token(|Alternatives(d)[k]|, IntOf(s[..|Alternatives(d)[k]|])))
  {
    var r := FirstAlternative(s, Alternatives(d));
    assert r == Some(k);
  }

  lemma ScanTwoDigits(d: Directive, n: nat, rest: string, k: nat)
    requires IsNumeric(d) && n < 100 && k < |Alternatives(d)| && |Alternatives(d)[k]| == 2
    requires StartsWithPattern(Pad2(n), Alternatives(d)[k])
    requires forall j :: 0 <= j < k ==> !StartsWithPattern(Pad2(n) + rest, Alternatives(d)[j])
    ensures Scan(d, Pad2(n) + rest) == Some(Token(2, n))
  {
    var s := Pad2(n) + rest;
    assert s[..2] == Pad2(n);
    assert forall i :: 0 <= i < 2 ==> s[i] == Pad2(n)[i];
    ScanByAlternative(d, s, k);
    IntOfPad2(n);
  }

  lemma ScanMonth(m: nat, rest: string)
    requires 1 <= m <= 12
    ensures Scan(Month, Pad2(m) + rest) == Some(Token(2, m))
  {
    var s := Pad2(m) + rest;
    assert s[0] == Pad2(m)[0];
    if m >= 10 {
      ScanTwoDigits(Month, m, rest, 0);
    } else {
      assert !StartsWithPattern(s, Alternatives(Month)[0]) by {
        assert !InClass(s[0], Exactly('1'));
      }
      ScanTwoDigits(Month, m, rest, 1);
    }
  }

  lemma ScanDay(d: nat, rest: string)
    requires 1 <= d <= 31
    ensures Scan(Day, Pad2(d) + rest) == Some(Token(2, d))
  {
    var s := Pad2(d) + rest;
    assert s[0] == Pad2(d)[0];
    var alts := Alternatives(Day);
    if d >= 30 {
      ScanTwoDigits(Day, d, rest, 0);
    } else if d >= 10 {
      assert !InClass(s[0], Exactly('3'));
      ScanTwoDigits(Day, d, rest, 1);
    } else {
      assert !InClass(s[0], Exactly('3')) && !InClass(s[0], Range('1', '2'));
      ScanTwoDigits(Day, d, rest, 2);
    }
  }

  lemma ScanHour24(h: nat, rest: string)
    requires h < 24
    ensures Scan(Hour24, Pad2(h) + rest) == Some(Token(2, h))
  {
    var s := Pad2(h) + rest;
    assert s[0] == Pad2(h)[0];
    if h >= 20 {
      ScanTwoDigits(Hour24, h, rest, 0);
    } else {
      assert !InClass(s[0], Exactly('2'));
      ScanTwoDigits(Hour24, h, rest, 1);
    }
  }

  lemma ScanHour12(h: nat, rest: string)
    requires 1 <= h <= 12
    ensures Scan(Hour12, Pad2(h) + rest) == Some(Token(2, h))
  {
    var s := Pad2(h) + rest;
    assert s[0] == Pad2(h)[0];
    if h >= 10 {
      ScanTwoDigits(Hour12, h, rest, 0);
    } else {
      assert !InClass(s[0], Exactly('1'));
      ScanTwoDigits(Hour12, h, rest, 1);
    }
  }

  lemma ScanMinute(m: nat, rest: string)
    requires m < 60
    ensures Scan(Minute, Pad2(m) + rest) == Some(Token(2, m))
  {
    ScanTwoDigits(Minute, m, rest, 0);
  }

  lemma ScanSecond(sec: nat, rest: string)
    requires sec < 60
    ensures Scan(Second, Pad2(sec) + rest) == Some(Token(2, sec))
  {
    var s := Pad2(sec) + rest;
    assert s[0] == Pad2(sec)[0];
    assert !InClass(s[0], Exactly('6'));
    ScanTwoDigits(Second, sec, rest, 1);
  }

  lemma ScanLit(c: char, rest: string)
    ensures Scan(Lit(c), [c] + rest) == Some(Token(1, 0))
  {
    var s := [c] + rest;
    assert StartsWithPattern(s, Alternatives(Lit(c))[0]);
    assert FirstAlternative(s, Alternatives(Lit(c))) == Some(0);
  }

  function AmPmText(pm: bool): string {
    if pm then "pm" else "am"
  }

  lemma ScanAmPm(pm: bool, rest: string)
    ensures Scan(AmPm, AmPmText(pm) + rest) == Some(Token(2, if pm then 1 else 0))
  {
    var s := AmPmText(pm) + rest;
    var alts := Alternatives(AmPm);
    assert s[0] == AmPmText(pm)[0] && s[1] == AmPmText(pm)[1];
    assert alts[0] == [Exactly('a'), Exactly('m')] && alts[1] == [Exactly('p'), Exactly('m')];
    if pm {
      assert !InClass(s[0], alts[0][0]);
      assert StartsWithPattern(s, alts[1]);
      assert FirstAlternative(s, alts) == Some(1);
    } else {
      assert StartsWithPattern(s, alts[0]);
      assert FirstAlternative(s, alts) == Some(0);
    }
  }

  /** Matching a format scans its first directive and matches the rest of
      the format on the text that remains. */
  lemma MatchStep(d: Directive, rest: Format, s: string, f: Fields, t: Token)
    requires FieldsInRange(f) && Scan(d, s) == Some(t)
    ensures FieldsInRange(Store(f, d, t.value))
    ensures Match([d] + rest, s, f) == Match(rest, s[t.length..], Store(f, d, t.value))
  {
    var fmt := [d] + rest;
    assert fmt != [] && fmt[0] == d && fmt[1..] == rest;
    StoreInRange(f, d, t.value);
  }

  /** A directive that consumes exactly `text` stores its value and leaves
      the rest of the format to match what follows. */
  lemma MatchToken(d: Directive, rest: Format, text: string, s: string, f: Fields, v: nat)
    requires FieldsInRange(f) && Scan(d, text + s) == Some(Token(|text|, v))
    ensures FieldsInRange(Store(f, d, v))
    ensures Match([d] + rest, text + s, f) == Match(rest, s, Store(f, d, v))
  {
    var u := text + s;
    assert u[|text|..] == s;
    MatchStep(d, rest, u, f, Token(|text|, v));
  }

  lemma MatchLit(c: char, rest: Format, s: string, f: Fields)
    requires FieldsInRange(f)
    ensures Match([Lit(c)] + rest, [c] + s, f) == Match(rest, s, f)
  {
    ScanLit(c, s);
    MatchToken(Lit(c), rest, [c], s, f, 0);
  }

  lemma MatchYear(y: nat, rest: Format, s: string, f: Fields)
    requires y < 10000 && FieldsInRange(f)
    ensures FieldsInRange(f.(year := Some(y)))
    ensures Match([Year] + rest, Pad4(y) + s, f) == Match(rest, s, f.(year := Some(y)))
  {
    ScanYear(y, s);
    MatchToken(Year, rest, Pad4(y), s, f, y);
  }

  lemma MatchMonth(m: nat, rest: Format, s: string, f: Fields)
    requires 1 <= m <= 12 && FieldsInRange(f)
    ensures FieldsInRange(f.(month := Some(m)))
    ensures Match([Month] + rest, Pad2(m) + s, f) == Match(rest, s, f.(month := Some(m)))
  {
    ScanMonth(m, s);
    MatchToken(Month, rest, Pad2(m), s, f, m);
  }

  lemma MatchDay(d: nat, rest: Format, s: string, f: Fields)
    requires 1 <= d <= 31 && FieldsInRange(f)
    ensures FieldsInRange(f.(day := Some(d)))
    ensures Match([Day] + rest, Pad2(d) + s, f) == Match(rest, s, f.(day := Some(d)))
  {
    ScanDay(d, s);
    MatchToken(Day, rest, Pad2(d), s, f, d);
  }

  lemma MatchHour24(h: nat, rest: Format, s: string, f: Fields)
    requires h < 24 && FieldsInRange(f)
    ensures FieldsInRange(f.(hour24 := Some(h)))
    ensures Match([Hour24] + rest, Pad2(h) + s, f) == Match(rest, s, f.(hour24 := Some(h)))
  {
    ScanHour24(h, s);
    MatchToken(Hour24, rest, Pad2(h), s, f, h);
  }

  lemma MatchHour12(h: nat, rest: Format, s: string, f: Fields)
    requires 1 <= h <= 12 && FieldsInRange(f)
    ensures FieldsInRange(f.(hour12 := Some(h)))
    ensures Match([Hour12] + rest, Pad2(h) + s, f) == Match(rest, s, f.(hour12 := Some(h)))
  {
    ScanHour12(h, s);
    MatchToken(Hour12, rest, Pad2(h), s, f, h);
  }

  lemma MatchMinute(m: nat, rest: Format, s: string, f: Fields)
    requires m < 60 && FieldsInRange(f)
    ensures FieldsInRange(f.(minute := Some(m)))
    ensures Match([Minute] + rest, Pad2(m) + s, f) == Match(rest, s, f.(minute := Some(m)))
  {
    ScanMinute(m, s);
    MatchToken(Minute, rest, Pad2(m), s, f, m);
  }

  lemma MatchSecond(sec: nat, rest: Format, s: string, f: Fields)
    requires sec < 60 && FieldsInRange(f)
    ensures FieldsInRange(f.(second := Some(sec)))
    ensures Match([Second] + rest, Pad2(sec) + s, f) == Match(rest, s, f.(second := Some(sec)))
  {
    ScanSecond(sec, s);
    MatchToken(Second, rest, Pad2(sec), s, f, sec);
  }

  lemma MatchAmPm(pm: bool, rest: Format, s: string, f: Fields)
    requires FieldsInRange(f)
    ensures FieldsInRange(f.(pm := Some(pm)))
    ensures Match([AmPm] + rest, AmPmText(pm) + s, f) == Match(rest, s, f.(pm := Some(pm)))
  {
    ScanAmPm(pm, s);
    MatchToken(AmPm, rest, AmPmText(pm), s, f, if pm then 1 else 0);
  }

  /** `%p` cannot match where neither an "a" nor a "p" stands, in either case. */
  lemma AmPmScanNeedsLetter(s: string)
    requires s == [] || (LowerChar(s[0]) != 'a' && LowerChar(s[0]) != 'p')
    ensures Scan(AmPm, s).None?
  {
    var alts := Alternatives(AmPm);
    assert |alts| == 2 && |alts[0]| == 2 && |alts[1]| == 2;
    assert alts[0][0] == Exactly('a') && alts[1][0] == Exactly('p');
    if s != [] {
      assert !InClass(s[0], alts[0][0]) && !InClass(s[0], alts[1][0]);
    }
    assert FirstAlternative(s, alts).None?;
  }

  /** A directive that does not scan makes the whole format fail. */
  lemma MatchNoScan(d: Directive, rest: Format, s: string, f: Fields)
    requires FieldsInRange(f) && Scan(d, s).None?
    ensures Match([d] + rest, s, f).None?
  {
    var fmt := [d] + rest;
    assert fmt != [] && fmt[0] == d;
  }

  /** Text in which no "a" or "p" of either case occurs. */
  predicate NoAOrP(s: string) {
    'a' !in s && 'A' !in s && 'p' !in s && 'P' !in s
  }

  /** Dropping a prefix keeps "a" and "p" absent. */
  lemma NoAOrPSuffix(s: string, k: nat)
    requires NoAOrP(s) && k <= |s|
    ensures NoAOrP(s[k..])
  {
    assert s == s[..k] + s[k..];
  }

  // ---------------------------------------------------------------------
  // Case does not matter: the expression is compiled with IGNORECASE

  /** A class that tests the same way whatever the case of the character:
      a literal, compared ignoring case, or a class of digits. */
  predicate CaseStable(k: CharClass) {
    k.Exactly? || k.Digit? || (k.Range? && IsDigit(k.lo) && IsDigit(k.hi))
  }

  lemma InClassIgnoresCase(a: char, b: char, k: CharClass)
    requires CaseStable(k) && LowerChar(a) == LowerChar(b)
    ensures InClass(a, k) == InClass(b, k)
  {
    SameLowerChar(a, b);
  }

  /** Every class of every alternative is case-stable. */
  predicate AllCaseStable(alts: seq<Pattern>) {
    forall k, i :: 0 <= k < |alts| && 0 <= i < |alts[k]| ==> CaseStable(alts[k][i])
  }

  lemma WordsCaseStable(names: seq<string>)
    ensures AllCaseStable(Words(names))
  {
    forall k, i | 0 <= k < |names| && 0 <= i < |Words(names)[k]|
      ensures CaseStable(Words(names)[k][i])
    {
      assert Words(names)[k] == Word(names[k]);
    }
  }

  lemma AlternativesCaseStable(d: Directive)
    requires !d.Spaces?
    ensures AllCaseStable(Alternatives(d))
  {
    match d
    case AmPm => WordsCaseStable(AmPmNames);
    case MonthName => WordsCaseStable(MonthNames);
    case WeekdayName => WordsCaseStable(WeekdayNames);
    case _ =>
  }

  lemma StartsIgnoresCase(s: string, t: string, p: Pattern)
    requires SameIgnoringCase(s, t)
    requires forall i :: 0 <= i < |p| ==> CaseStable(p[i])
    ensures StartsWithPattern(s, p) == StartsWithPattern(t, p)
  {
    if |p| <= |s| {
      forall i | 0 <= i < |p|
        ensures InClass(s[i], p[i]) == InClass(t[i], p[i])
      {
        InClassIgnoresCase(s[i], t[i], p[i]);
      }
    }
  }

  lemma {:induction false} FirstAlternativeIgnoresCase(s: string, t: string, alts: seq<Pattern>)
    requires SameIgnoringCase(s, t) && AllCaseStable(alts)
    ensures FirstAlternative(s, alts) == FirstAlternative(t, alts)
    decreases |alts|
  {
    if alts != [] {
      StartsIgnoresCase(s, t, alts[0]);
      assert AllCaseStable(alts[1..]) by {
        assert forall k :: 0 <= k < |alts[1..]| ==> alts[1..][k] == alts[k + 1];
      }
      FirstAlternativeIgnoresCase(s, t, alts[1..]);
    }
  }

  /** Texts equal up to case agree from position `n` on. */
  lemma SameIgnoringCaseSuffix(s: string, t: string, n: nat)
    requires SameIgnoringCase(s, t) && n <= |s|
    ensures SameIgnoringCase(s[n..], t[n..]) && SameIgnoringCase(s[..n], t[..n])
  {
    assert forall i :: 0 <= i < |s| - n ==> s[n..][i] == s[n + i] && t[n..][i] == t[n + i];
  }

  lemma {:induction false} SpaceRunIgnoresCase(s: string, t: string)
    requires SameIgnoringCase(s, t)
    ensures SpaceRun(s) == SpaceRun(t)
    decreases |s|
  {
    if s != [] {
      SameLowerChar(s[0], t[0]);
      SameIgnoringCaseSuffix(s, t, 1);
      SpaceRunIgnoresCase(s[1..], t[1..]);
    }
  }

  lemma {:induction false} IntOfIgnoresCase(s: string, t: string)
    requires SameIgnoringCase(s, t)
    ensures IntOf(s) == IntOf(t)
    decreases |s|
  {
    if s != [] {
      var n := |s| - 1;
      SameLowerChar(s[n], t[n]);
      SameIgnoringCaseSuffix(s, t, n);
      IntOfIgnoresCase(s[..n], t[..n]);
    }
  }

  /** A directive scans the same way whatever the case of the text. */
  lemma ScanIgnoresCase(d: Directive, s: string, t: string)
    requires SameIgnoringCase(s, t)
    ensures Scan(d, s) == Scan(d, t)
  {
    if d.Spaces? {
      SpaceRunIgnoresCase(s, t);
    } else {
      ScanAlternativesIgnoresCase(d, s, t);
    }
  }

  /** Outside whitespace, the token is read off the first alternative that
      matches. */
  lemma ScanByFirstAlternative(d: Directive, s: string)
    requires !d.Spaces?
    ensures FirstAlternative(s, Alternatives(d)).None? ==> Scan(d, s).None?
    ensures FirstAlternative(s, Alternatives(d)).Some? ==>
      var n := |Alternatives(d)[FirstAlternative(s, Alternatives(d)).value]|;
      Scan(d, s) == Some(Token(n, TokenValue(d, FirstAlternative(s, Alternatives(d)).value, s[..n])))
  {
  }

  lemma ScanAlternativesIgnoresCase(d: Directive, s: string, t: string)
    requires !d.Spaces? && SameIgnoringCase(s, t)
    ensures Scan(d, s) == Scan(d, t)
  {
    var alts := Alternatives(d);
    assert FirstAlternative(s, alts) == FirstAlternative(t, alts) by {
      AlternativesCaseStable(d);
      FirstAlternativeIgnoresCase(s, t, alts);
    }
    ScanByFirstAlternative(d, s);
    ScanByFirstAlternative(d, t);
    match FirstAlternative(s, alts)
    case None =>
    case Some(k) =>
      var n := |alts[k]|;
      assert IntOf(s[..n]) == IntOf(t[..n]) by {
        SameIgnoringCaseSuffix(s, t, n);
        IntOfIgnoresCase(s[..n], t[..n]);
      }
      assert TokenValue(d, k, s[..n]) == TokenValue(d, k, t[..n]);
  }

  /** A format matches the same way whatever the case of the text. */
  lemma {:induction false} MatchIgnoresCase(fmt: Format, s: string, t: string, f: Fields)
    requires FieldsInRange(f) && SameIgnoringCase(s, t)
    ensures Match(fmt, s, f) == Match(fmt, t, f)
    decreases |fmt|
  {
    if fmt != [] {
      ScanIgnoresCase(fmt[0], s, t);
      var r := Scan(fmt[0], s);
      if r.Some? {
        StoreInRange(f, fmt[0], r.value.value);
        SameIgnoringCaseSuffix(s, t, r.value.length);
        MatchIgnoresCase(fmt[1..], s[r.value.length..], t[r.value.length..], Store(f, fmt[0], r.value.value));
      }
    }
  }

  /** `strptime` reads the same `datetime` whatever the case of the text. */
  lemma ParseIgnoresCase(fmt: Format, s: string, t: string)
    requires SameIgnoringCase(s, t)
    ensures Parse(fmt, s) == Parse(fmt, t)
  {
    MatchIgnoresCase(fmt, s, t, NoFields);
  }

  lemma {:induction false} FirstParsingIgnoresCase(fmts: seq<Format>, s: string, t: string)
    requires SameIgnoringCase(s, t)
    ensures FirstParsing(fmts, s) == FirstParsing(fmts, t)
    decreases |fmts|
  {
    if fmts != [] {
      ParseIgnoresCase(fmts[0], s, t);
      FirstParsingIgnoresCase(fmts[1..], s, t);
    }
  }

  // ---------------------------------------------------------------------
  // Month and weekday names

  /** A name whose letter at `i` is a different lower-case letter from the
      text's does not match there. */
  lemma WordMismatch(s: string, w: string, i: nat)
    requires i < |w| && i < |s| && s[i] != w[i] && IsLower(s[i]) && IsLower(w[i])
    ensures !StartsWithPattern(s, Word(w))
  {
    assert !InClass(s[i], Word(w)[i]);
  }

  /** The month a name's first three letters identify. */
  function MonthOfLetters(a: char, b: char, c: char): nat {
    if a == 'j' then (if b == 'a' then 0 else if c == 'n' then 5 else 6)
    else if a == 'f' then 1
    else if a == 'm' then (if c == 'r' then 2 else 4)
    else if a == 'a' then (if b == 'p' then 3 else 7)
    else if a == 's' then 8 else if a == 'o' then 9 else if a == 'n' then 10 else 11
  }

  /** The first two letters of a weekday name. */
  predicate WeekdayLetters(a: char, b: char) {
    || (a == 'm' && b == 'o') || (a == 't' && (b == 'u' || b == 'h')) || (a == 'w' && b == 'e')
    || (a == 'f' && b == 'r') || (a == 's' && (b == 'a' || b == 'u'))
  }

  /** The first three letters of a month name tell it from every other
      month and from every weekday. */
  lemma MonthLetters(k: nat)
    requires k < |MonthNames|
    ensures |MonthNames[k]| >= 3 && MonthOfLetters(MonthNames[k][0], MonthNames[k][1], MonthNames[k][2]) == k
    ensures !WeekdayLetters(MonthNames[k][0], MonthNames[k][1])
    ensures forall i :: 0 <= i < |MonthNames[k]| ==> IsLower(MonthNames[k][i])
  {
  }

  /** The weekday a name's first two letters identify. */
  function WeekdayOfLetters(a: char, b: char): nat {
    if a == 'm' then 0
    else if a == 't' then (if b == 'u' then 1 else 3)
    else if a == 'w' then 2
    else if a == 'f' then 4
    else if b == 'a' then 5
    else 6
  }

  lemma WeekdayNameLetters(j: nat)
    requires j < |WeekdayNames|
    ensures |WeekdayNames[j]| >= 3 && WeekdayLetters(WeekdayNames[j][0], WeekdayNames[j][1])
    ensures WeekdayOfLetters(WeekdayNames[j][0], WeekdayNames[j][1]) == j
    ensures forall i :: 0 <= i < |WeekdayNames[j]| ==> IsLower(WeekdayNames[j][i])
  {
  }

  /** A name written in lower case matches at the start of itself. */
  lemma LowerWordPrefix(w: string, rest: string)
    requires forall i :: 0 <= i < |w| ==> IsLower(w[i])
    ensures StartsWithPattern(w + rest, Word(w))
  {
    var s := w + rest;
    forall i | 0 <= i < |w|
      ensures InClass(s[i], Word(w)[i])
    {
      assert s[i] == w[i];
    }
  }

  /** The first name that matches is the one the alternatives pick. */
  lemma FirstWord(s: string, names: seq<string>, k: nat)
    requires k < |names| && StartsWithPattern(s, Word(names[k]))
    requires forall j :: 0 <= j < k ==> !StartsWithPattern(s, Word(names[j]))
    ensures FirstAlternative(s, Words(names)) == Some(k)
  {
    var alts := Words(names);
    assert StartsWithPattern(s, alts[k]);
    assert forall j :: 0 <= j < k ==> !StartsWithPattern(s, alts[j]);
  }

  /** A text that begins with one month's three letters matches no other
      month's name. */
  lemma OtherMonthMismatch(j: nat, k: nat, s: string)
    requires j < |MonthNames| && k < |MonthNames| && j != k
    requires |s| >= 3 && s[0] == MonthNames[k][0] && s[1] == MonthNames[k][1] && s[2] == MonthNames[k][2]
    ensures !StartsWithPattern(s, Word(MonthNames[j]))
  {
    var w, name := MonthNames[j], MonthNames[k];
    MonthLetters(j);
    MonthLetters(k);
    if w[0] != name[0] {
      WordMismatch(s, w, 0);
    } else if w[1] != name[1] {
      WordMismatch(s, w, 1);
    } else {
      WordMismatch(s, w, 2);
    }
  }

  /** A text that begins with a month's two letters matches no weekday. */
  lemma WeekdayMismatch(j: nat, k: nat, s: string)
    requires j < |WeekdayNames| && k < |MonthNames|
    requires |s| >= 2 && s[0] == MonthNames[k][0] && s[1] == MonthNames[k][1]
    ensures !StartsWithPattern(s, Word(WeekdayNames[j]))
  {
    var w, name := WeekdayNames[j], MonthNames[k];
    MonthLetters(k);
    WeekdayNameLetters(j);
    if w[0] != name[0] {
      WordMismatch(s, w, 0);
    } else {
      WordMismatch(s, w, 1);
    }
  }

  /** `%B` reads a month name written in lower case, whatever follows it. */
  lemma ScanMonthName(k: nat, rest: string)
    requires k < |MonthNames|
    ensures Scan(MonthName, MonthNames[k] + rest) == Some(Token(|MonthNames[k]|, k + 1))
  {
    var name, s := MonthNames[k], MonthNames[k] + rest;
    assert FirstAlternative(s, Words(MonthNames)) == Some(k) by {
      MonthLetters(k);
      LowerWordPrefix(name, rest);
      assert s[0] == name[0] && s[1] == name[1] && s[2] == name[2];
      forall j | 0 <= j < k
        ensures !StartsWithPattern(s, Word(MonthNames[j]))
      {
        OtherMonthMismatch(j, k, s);
      }
      FirstWord(s, MonthNames, k);
    }
    ScanMonthToken(k, s);
  }

  /** `%B` stores the month the first matching name stands for, and
      consumes as many characters as that name has. */
  lemma ScanMonthToken(k: nat, s: string)
    requires k < |MonthNames| && FirstAlternative(s, Words(MonthNames)) == Some(k)
    ensures Scan(MonthName, s) == Some(Token(|MonthNames[k]|, k + 1))
  {
    ScanByFirstAlternative(MonthName, s);
  }

  /** `%A` does not match where a month name, in lower case, stands. */
  lemma ScanWeekdayOnMonth(k: nat, rest: string)
    requires k < |MonthNames|
    ensures Scan(WeekdayName, MonthNames[k] + rest).None?
  {
    var name, s := MonthNames[k], MonthNames[k] + rest;
    MonthLetters(k);
    assert s[0] == name[0] && s[1] == name[1];
    var alts := Alternatives(WeekdayName);
    forall j | 0 <= j < |alts|
      ensures !StartsWithPattern(s, alts[j])
    {
      WeekdayMismatch(j, k, s);
    }
    ScanByFirstAlternative(WeekdayName, s);
  }

  /** `%Y` does not match where a letter stands. */
  lemma ScanYearOnLetter(s: string)
    requires s != [] && IsCased(s[0])
    ensures Scan(Year, s).None?
  {
    var alts := Alternatives(Year);
    assert !InClass(s[0], alts[0][0]);
    ScanByFirstAlternative(Year, s);
  }

  /** A literal does not match a different character. */
  lemma ScanLitMismatch(c: char, s: string)
    requires s == [] || LowerChar(s[0]) != LowerChar(c)
    ensures Scan(Lit(c), s).None?
  {
    var alts := Alternatives(Lit(c));
    if s != [] {
      assert !InClass(s[0], alts[0][0]);
    }
    ScanByFirstAlternative(Lit(c), s);
  }

  /** A single space before something that is not whitespace is one run. */
  lemma ScanOneSpace(rest: string)
    requires rest == [] || !IsSpace(rest[0])
    ensures Scan(Spaces, " " + rest) == Some(Token(1, 0))
  {
    assert (" " + rest)[1..] == rest;
  }

  lemma MatchMonthName(k: nat, rest: Format, s: string, f: Fields)
    requires k < |MonthNames| && FieldsInRange(f)
    ensures FieldsInRange(f.(month := Some(k + 1)))
    ensures Match([MonthName] + rest, MonthNames[k] + s, f) == Match(rest, s, f.(month := Some(k + 1)))
  {
    ScanMonthName(k, s);
    MatchToken(MonthName, rest, MonthNames[k], s, f, k + 1);
  }

  lemma MatchOneSpace(rest: Format, s: string, f: Fields)
    requires FieldsInRange(f) && (s == [] || !IsSpace(s[0]))
    ensures Match([Spaces] + rest, " " + s, f) == Match(rest, s, f)
  {
    ScanOneSpace(s);
    MatchToken(Spaces, rest, " ", s, f, 0);
  }
}
