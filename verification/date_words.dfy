/** What `parse_date` makes of dates written with a month name, as in
    "October 25th, 2025": the ordinal suffix is deleted, a month name that
    contains none of the deleted pairs comes through, and "%B %d, %Y" reads
    the result. A name that does contain one ("August", and the weekdays
    Monday, Thursday, Saturday and Sunday) is mangled, and no format reads it. */
module DateWords {
  import opened Wrappers
  import opened Text
  import opened JsonValue
  import opened Strptime
  import opened StrptimeProperties
  import opened CalendarUpdater

  /** The pairs `parse_date` deletes, in the order it deletes them. */
  const Ordinals: seq<string> := ["st", "nd", "rd", "th"]

  /** The two characters are one of the pairs. */
  predicate IsOrdinal(a: char, b: char) {
    (a == 's' && b == 't') || (a == 'n' && b == 'd') || (a == 'r' && b == 'd') || (a == 't' && b == 'h')
  }

  /** No ordinal suffix occurs in `w`. */
  predicate NoOrdinalIn(w: string) {
    forall i :: 0 <= i < |w| - 1 ==> !IsOrdinal(w[i], w[i + 1])
  }

  /** Text without letters. */
  predicate Uncased(s: string) {
    forall i :: 0 <= i < |s| ==> !IsCased(s[i])
  }

  /** The four deletions of `parse_date`, in order. */
  function DeleteOrdinals(s: string): string {
    Delete(Delete(Delete(Delete(s, "st"), "nd"), "rd"), "th")
  }

  lemma OrdinalShape(p: string)
    requires p in Ordinals
    ensures |p| == 2 && IsLower(p[0]) && IsLower(p[1]) && IsOrdinal(p[0], p[1])
  {
  }

  /** A name free of the pairs, followed by a character that is not a
      letter, is left alone by a deletion. */
  lemma NameDeleteStep(name: string, r: string, p: string)
    requires NoOrdinalIn(name) && p in Ordinals && r != [] && !IsCased(r[0])
    ensures Delete(name + r, p) == name + Delete(r, p)
  {
    OrdinalShape(p);
    var s := name + r;
    assert NoPairBefore(s, p, |name|) by {
      forall i | 0 <= i < |name| && i + 1 < |s|
        ensures !(s[i] == p[0] && s[i + 1] == p[1])
      {
        if i + 1 < |name| {
          assert !IsOrdinal(name[i], name[i + 1]);
          assert name[i] == s[i] && name[i + 1] == s[i + 1];
        } else {
          assert s[i + 1] == r[0];
        }
      }
    }
    DeleteSplice(s, p, |name|);
    assert s[..|name|] == name && s[|name|..] == r;
  }

  /** Between two runs of non-letters, a deletion removes the suffix `x`
      exactly when it is the pair being deleted. */
  lemma TailDeleteStep(m: string, x: string, b: string, p: string)
    requires Uncased(m) && Uncased(b) && p in Ordinals && (x == [] || x in Ordinals)
    ensures Delete(m + (x + b), p) == m + ((if x == p then [] else x) + b)
  {
    OrdinalShape(p);
    var t, u := m + (x + b), x + b;
    assert NoPairBefore(t, p, |m|) by {
      forall i | 0 <= i < |m| && i + 1 < |t|
        ensures !(t[i] == p[0] && t[i + 1] == p[1])
      {
        assert t[i] == m[i];
      }
    }
    DeleteSplice(t, p, |m|);
    assert t[..|m|] == m && t[|m|..] == u;
    assert Delete(b, p) == b by {
      assert p[0] !in b;
      FirstCharAbsent(b, p);
      DeleteAbsent(b, p);
    }
    if x == p {
      assert u[..2] == p && u[2..] == b;
    } else if x == [] {
      assert u == b;
    } else {
      OrdinalShape(x);
      assert NoPairBefore(u, p, 2) by {
        forall i | 0 <= i < 2 && i + 1 < |u|
          ensures !(u[i] == p[0] && u[i + 1] == p[1])
        {
          if i == 0 {
            assert u[0] == x[0] && u[1] == x[1];
          } else {
            assert u[2] == b[0];
          }
        }
      }
      DeleteSplice(u, p, 2);
      assert u[..2] == x && u[2..] == b;
    }
  }

  /** The deletions remove the suffix and nothing else. */
  lemma DeleteOrdinalsAround(name: string, m: string, x: string, b: string)
    requires NoOrdinalIn(name) && m != [] && Uncased(m) && Uncased(b)
    requires x == [] || x in Ordinals
    ensures DeleteOrdinals(name + (m + (x + b))) == name + (m + b)
  {
    assert "st" in Ordinals && "nd" in Ordinals && "rd" in Ordinals && "th" in Ordinals;
    assert !IsCased(m[0]);
    var x1 := if x == "st" then [] else x;
    var x2 := if x1 == "nd" then [] else x1;
    var x3 := if x2 == "rd" then [] else x2;
    NameDeleteStep(name, m + (x + b), "st");
    TailDeleteStep(m, x, b, "st");
    NameDeleteStep(name, m + (x1 + b), "nd");
    TailDeleteStep(m, x1, b, "nd");
    NameDeleteStep(name, m + (x2 + b), "rd");
    TailDeleteStep(m, x2, b, "rd");
    NameDeleteStep(name, m + (x3 + b), "th");
    TailDeleteStep(m, x3, b, "th");
    assert (if x3 == "th" then [] else x3) == [];
    assert [] + b == b;
  }

  lemma LowerAppend(a: string, b: string)
    ensures Lower(a + b) == Lower(a) + Lower(b)
  {
    var l, r := Lower(a + b), Lower(a) + Lower(b);
    forall i | 0 <= i < |l|
      ensures l[i] == r[i]
    {
      if i < |a| {
        assert (a + b)[i] == a[i];
      } else {
        assert (a + b)[i] == b[i - |a|];
      }
    }
  }

  lemma LowerUncased(s: string)
    requires Uncased(s)
    ensures Lower(s) == s
  {
    LowerIdentity(s);
  }

  /** Title-casing changes only the case of letters. */
  lemma TitleIgnoresCase(s: string)
    ensures SameIgnoringCase(Title(s), s)
  {
  }

  /** Lower-casing leaves the parts without letters alone. */
  lemma LowerAround(w: string, m: string, x: string, b: string)
    requires Uncased(m) && Uncased(b)
    ensures Lower(w + (m + (x + b))) == Lower(w) + (m + (Lower(x) + b))
  {
    LowerAppend(w, m + (x + b));
    LowerAppend(m, x + b);
    LowerAppend(x, b);
    LowerUncased(m);
    LowerUncased(b);
  }

  /** Title-casing a text that begins with a letter and ends with a visible
      character other than a letter leaves nothing for `strip` to remove. */
  lemma TitleNeedsNoStrip(kept: string)
    requires kept != [] && IsCased(kept[0])
    requires !IsCased(kept[|kept| - 1]) && !IsSpace(kept[|kept| - 1])
    ensures Strip(Title(kept)) == Title(kept)
  {
    var n := Title(kept);
    assert !IsSpace(n[0]) && !IsSpace(n[|n| - 1]) by {
      TitleIgnoresCase(kept);
      SameLowerChar(n[0], kept[0]);
      SameLowerChar(n[|n| - 1], kept[|kept| - 1]);
    }
    StripVisible(n);
  }

  lemma StripVisible(s: string)
    requires s != [] && !IsSpace(s[0]) && !IsSpace(s[|s| - 1])
    ensures Strip(s) == s
  {
  }

  /** Lower-casing and the deletions leave the name and the parts without
      letters, and remove the suffix. */
  lemma NormalizeKeeps(w: string, m: string, x: string, b: string)
    requires NoOrdinalIn(Lower(w)) && m != [] && Uncased(m) && Uncased(b)
    requires x == [] || Lower(x) in Ordinals
    ensures NormalizeDate(w + (m + (x + b))) == Title(Lower(w) + (m + b))
  {
    LowerAround(w, m, x, b);
    DeleteOrdinalsAround(Lower(w), m, Lower(x), b);
  }

  /** The normalised text of "<name><sep><suffix><rest>" is the text
      without its suffix, up to case. */
  lemma NormalizeAround(w: string, m: string, x: string, b: string)
    requires NoOrdinalIn(Lower(w)) && m != [] && Uncased(m) && Uncased(b)
    requires x == [] || Lower(x) in Ordinals
    ensures SameIgnoringCase(NormalizeDate(w + (m + (x + b))), Lower(w) + (m + b))
  {
    NormalizeKeeps(w, m, x, b);
    TitleIgnoresCase(Lower(w) + (m + b));
  }

  /** When the name begins with a letter and the text ends in a visible
      character, `strip` leaves the normalised text alone. */
  lemma NormalizedNeedsNoStrip(w: string, m: string, x: string, b: string)
    requires w != [] && IsCased(w[0]) && NoOrdinalIn(Lower(w)) && m != [] && Uncased(m) && Uncased(b)
    requires x == [] || Lower(x) in Ordinals
    requires b != [] && !IsSpace(b[|b| - 1])
    ensures Strip(NormalizeDate(w + (m + (x + b)))) == NormalizeDate(w + (m + (x + b)))
  {
    var kept := Lower(w) + (m + b);
    NormalizeKeeps(w, m, x, b);
    assert IsCased(kept[0]) by {
      assert kept[0] == Lower(w)[0] == LowerChar(w[0]);
    }
    assert !IsCased(kept[|kept| - 1]) && !IsSpace(kept[|kept| - 1]) by {
      assert kept[|kept| - 1] == b[|b| - 1];
    }
    TitleNeedsNoStrip(kept);
  }

  // ---------------------------------------------------------------------
  // Reading "<month> <dd>, <yyyy>"

  /** The date as written: a name, a space and two digits, an optional
      ordinal suffix, and the rest. */
  function WrittenDate(w: string, d: nat, x: string, b: string): string
    requires d < 100
  {
    w + ((" " + Pad2(d)) + (x + b))
  }

  /** What the normalised text reads as, ignoring case, for a month name. */
  function MonthDay(k: nat, d: nat, b: string): string
    requires k < |MonthNames| && d < 100
  {
    MonthNames[k] + ((" " + Pad2(d)) + b)
  }

  /** ", yyyy" */
  function CommaYear(y: nat): string
    requires y < 10000
  {
    ", " + Pad4(y)
  }

  /** The groups "%B %d" captures. */
  function MonthDayFields(k: nat, d: nat): Fields {
    NoFields.(month := Some(k + 1)).(day := Some(d))
  }

  lemma DigitsUncased(d: nat, y: nat)
    requires d < 100 && y < 10000
    ensures Uncased(" " + Pad2(d)) && Uncased(CommaYear(y)) && Uncased(" " + Pad4(y))
  {
  }

  /** The formats, each split after its first directive. */
  lemma DateFormatShapes()
    ensures DateFormats[0] == [Year] + [Lit('-'), Month, Lit('-'), Day]
    ensures DateFormats[1] == [WeekdayName] + [Lit(','), Spaces, MonthName, Spaces, Day]
    ensures DateFormats[2] == [MonthName, Spaces, Day] + []
    ensures DateFormats[3] == [WeekdayName] + [Spaces, MonthName, Spaces, Day]
    ensures DateFormats[4] == [MonthName, Spaces, Day] + [Lit(','), Spaces, Year]
    ensures DateFormats[5] == [WeekdayName] + [Spaces, Day, Spaces, MonthName]
  {
  }

  /** "%Y-%m-%d" needs a digit where the name stands. */
  lemma IsoFormatOnName(k: nat, s: string)
    requires k < |MonthNames|
    ensures Parse(DateFormats[0], MonthNames[k] + s).None?
  {
    MonthLetters(k);
    ScanYearOnLetter(MonthNames[k] + s);
    DateFormatShapes();
    MatchNoScan(Year, [Lit('-'), Month, Lit('-'), Day], MonthNames[k] + s, NoFields);
  }

  /** The three formats that begin with "%A" need a weekday where the
      month stands. */
  lemma WeekdayFormatsOnMonth(k: nat, s: string)
    requires k < |MonthNames|
    ensures Parse(DateFormats[1], MonthNames[k] + s).None?
    ensures Parse(DateFormats[3], MonthNames[k] + s).None?
    ensures Parse(DateFormats[5], MonthNames[k] + s).None?
  {
    var u := MonthNames[k] + s;
    ScanWeekdayOnMonth(k, s);
    DateFormatShapes();
    MatchNoScan(WeekdayName, [Lit(','), Spaces, MonthName, Spaces, Day], u, NoFields);
    MatchNoScan(WeekdayName, [Spaces, MonthName, Spaces, Day], u, NoFields);
    MatchNoScan(WeekdayName, [Spaces, Day, Spaces, MonthName], u, NoFields);
  }

  /** "%B %d" reads the month and the day, and leaves the rest of the text
      to the rest of the format. */
  lemma MonthDayPrefix(k: nat, d: nat, b: string, rest: Format)
    requires k < |MonthNames| && 1 <= d <= 31
    ensures FieldsInRange(MonthDayFields(k, d))
    ensures Match([MonthName, Spaces, Day] + rest, MonthDay(k, d, b), NoFields)
         == Match(rest, b, MonthDayFields(k, d))
  {
    var f1 := NoFields.(month := Some(k + 1));
    var tail := " " + (Pad2(d) + b);
    assert MonthDay(k, d, b) == MonthNames[k] + tail;
    assert Pad2(d) + b != [] && !IsSpace((Pad2(d) + b)[0]);
    assert [MonthName, Spaces, Day] + rest == [MonthName] + ([Spaces] + ([Day] + rest));
    MatchMonthName(k, [Spaces] + ([Day] + rest), tail, NoFields);
    MatchOneSpace([Day] + rest, Pad2(d) + b, f1);
    MatchDay(d, rest, b, f1);
  }

  /** "%B %d" and "%B %d, %Y" read the month and the day. */
  lemma MonthDayMatches(k: nat, d: nat, b: string)
    requires k < |MonthNames| && 1 <= d <= 31
    ensures FieldsInRange(MonthDayFields(k, d))
    ensures Match(DateFormats[2], MonthDay(k, d, b), NoFields) == Match([], b, MonthDayFields(k, d))
    ensures Match(DateFormats[4], MonthDay(k, d, b), NoFields)
         == Match([Lit(','), Spaces, Year], b, MonthDayFields(k, d))
  {
    DateFormatShapes();
    MonthDayPrefix(k, d, b, []);
    MonthDayPrefix(k, d, b, [Lit(','), Spaces, Year]);
  }

  /** ", %Y" reads ", yyyy". */
  lemma CommaYearMatches(y: nat, f: Fields)
    requires y < 10000 && FieldsInRange(f)
    ensures Match([Lit(','), Spaces, Year], CommaYear(y), f) == Some(f.(year := Some(y)))
  {
    assert CommaYear(y) == [','] + (" " + (Pad4(y) + []));
    MatchLit(',', [Spaces, Year], " " + (Pad4(y) + []), f);
    MatchOneSpace([Year], Pad4(y) + [], f);
    MatchYear(y, [], [], f);
  }

  /** ", %Y" needs the comma. */
  lemma NoCommaFails(y: nat, f: Fields)
    requires y < 10000 && FieldsInRange(f)
    ensures Match([Lit(','), Spaces, Year], " " + Pad4(y), f).None?
  {
    ScanLitMismatch(',', " " + Pad4(y));
    MatchNoScan(Lit(','), [Spaces, Year], " " + Pad4(y), f);
  }

  /** The first format that parses is one that parses after formats that
      all fail. */
  lemma {:induction false} FirstParsingAt(fmts: seq<Format>, s: string, k: nat)
    requires k < |fmts| && Parse(fmts[k], s).Some?
    requires forall j :: 0 <= j < k ==> Parse(fmts[j], s).None?
    ensures FirstParsing(fmts, s) == Some(k)
    decreases k
  {
    if k > 0 {
      assert Parse(fmts[0], s).None?;
      var tail := fmts[1..];
      assert Parse(tail[k - 1], s).Some?;
      assert forall j :: 0 <= j < k - 1 ==> tail[j] == fmts[j + 1];
      FirstParsingAt(tail, s, k - 1);
    }
  }

  /** The fifth format is the first that parses when the four before it
      fail. */
  lemma FirstParsingFifth(fmts: seq<Format>, s: string)
    requires |fmts| > 4 && Parse(fmts[4], s).Some?
    requires Parse(fmts[0], s).None? && Parse(fmts[1], s).None?
    requires Parse(fmts[2], s).None? && Parse(fmts[3], s).None?
    ensures FirstParsing(fmts, s) == Some(4)
  {
    forall j | 0 <= j < 4
      ensures Parse(fmts[j], s).None?
    {
      if j == 0 {
      } else if j == 1 {
      } else if j == 2 {
      } else {
        assert j == 3;
      }
    }
    FirstParsingAt(fmts, s, 4);
  }

  /** "<month> <dd>, <yyyy>" parses under "%B %d, %Y", the fifth format,
      and under none before it. */
  lemma MonthDayYearParses(k: nat, d: nat, y: nat)
    requires k < |MonthNames| && 1 <= y <= 9999 && 1 <= d <= DaysInMonth(y, k + 1)
    ensures FirstParsing(DateFormats, MonthDay(k, d, CommaYear(y))) == Some(4)
    ensures Parse(DateFormats[4], MonthDay(k, d, CommaYear(y))) == Some(DateTime(Date(y, k + 1, d), Midnight))
  {
    var s := MonthDay(k, d, CommaYear(y));
    var f := MonthDayFields(k, d).(year := Some(y));
    assert Match(DateFormats[4], s, NoFields) == Some(f) && Parse(DateFormats[2], s).None? by {
      MonthDayMatches(k, d, CommaYear(y));
      CommaYearMatches(y, MonthDayFields(k, d));
    }
    assert Parse(DateFormats[4], s) == Some(DateTime(Date(y, k + 1, d), Midnight)) by {
      assert Assemble(f) == Some(DateTime(Date(y, k + 1, d), Midnight));
    }
    assert Parse(DateFormats[0], s).None? && Parse(DateFormats[1], s).None? && Parse(DateFormats[3], s).None? by {
      assert s == MonthNames[k] + ((" " + Pad2(d)) + CommaYear(y));
      IsoFormatOnName(k, (" " + Pad2(d)) + CommaYear(y));
      WeekdayFormatsOnMonth(k, (" " + Pad2(d)) + CommaYear(y));
    }
    FirstParsingFifth(DateFormats, s);
  }

  /** Without the comma, no format reads the text. */
  lemma MonthDayYearWithoutComma(k: nat, d: nat, y: nat)
    requires k < |MonthNames| && 1 <= d <= 31 && y < 10000
    ensures FirstParsing(DateFormats, MonthDay(k, d, " " + Pad4(y))).None?
  {
    var b := " " + Pad4(y);
    var s := MonthDay(k, d, b);
    MonthDayMatches(k, d, b);
    NoCommaFails(y, MonthDayFields(k, d));
    assert Match([], b, MonthDayFields(k, d)).None?;
    assert s == MonthNames[k] + ((" " + Pad2(d)) + b);
    IsoFormatOnName(k, (" " + Pad2(d)) + b);
    WeekdayFormatsOnMonth(k, (" " + Pad2(d)) + b);
  }

  /** When the normalised text needs no stripping and reads, ignoring
      case, as `lower`, `parse_date` answers as the formats do on `lower`. */
  lemma NormalizedDateReads(s: string, lower: string, currentYear: int)
    requires s != [] && 1 <= currentYear <= 9999
    requires Strip(NormalizeDate(s)) == NormalizeDate(s) && SameIgnoringCase(NormalizeDate(s), lower)
    ensures FirstParsing(DateFormats, lower).None? ==>
      ParseDate(Str(s), currentYear) == Failure(ValueError("Date format not recognized: " + NormalizeDate(s)))
    ensures FirstParsing(DateFormats, lower).Some? ==>
      ParseDate(Str(s), currentYear)
      == Success(FillYear(Parse(DateFormats[FirstParsing(DateFormats, lower).value], lower).value.date, currentYear))
  {
    var n := NormalizeDate(s);
    FirstParsingIgnoresCase(DateFormats, n, lower);
    if FirstParsing(DateFormats, lower).Some? {
      ParseIgnoresCase(DateFormats[FirstParsing(DateFormats, lower).value], n, lower);
    }
  }

  /** The normalised date reads, ignoring case, as the lower-case text
      without its suffix. */
  lemma NormalizeMonthDay(w: string, k: nat, d: nat, x: string, b: string)
    requires k < |MonthNames| && Lower(w) == MonthNames[k] && NoOrdinalIn(MonthNames[k])
    requires x == [] || Lower(x) in Ordinals
    requires 1 <= d <= 31 && b != [] && Uncased(b) && !IsSpace(b[|b| - 1])
    ensures Strip(NormalizeDate(WrittenDate(w, d, x, b))) == NormalizeDate(WrittenDate(w, d, x, b))
    ensures SameIgnoringCase(NormalizeDate(WrittenDate(w, d, x, b)), MonthDay(k, d, b))
  {
    var m := " " + Pad2(d);
    assert Uncased(m);
    MonthLetters(k);
    assert w != [] && IsCased(w[0]) by {
      assert Lower(w)[0] == LowerChar(w[0]);
    }
    NormalizeAround(w, m, x, b);
    NormalizedNeedsNoStrip(w, m, x, b);
  }

  /** A date written with a month name free of the deleted pairs, a
      two-digit day, an optional ordinal suffix, a comma and a four-digit
      year is read by "%B %d, %Y": "October 25th, 2025" is 25 October 2025.
      A year of 1900 becomes the current year, as for every format. */
  lemma ParseMonthDayYear(w: string, k: nat, d: nat, x: string, y: nat, currentYear: int)
    requires k < |MonthNames| && Lower(w) == MonthNames[k] && NoOrdinalIn(MonthNames[k])
    requires x == [] || Lower(x) in Ordinals
    requires 1 <= y <= 9999 && 1 <= d <= DaysInMonth(y, k + 1) && 1 <= currentYear <= 9999
    ensures ParseDate(Str(WrittenDate(w, d, x, CommaYear(y))), currentYear)
         == Success(FillYear(Date(y, k + 1, d), currentYear))
  {
    DigitsUncased(d, y);
    NormalizeMonthDay(w, k, d, x, CommaYear(y));
    MonthDayYearParses(k, d, y);
    NormalizedDateReads(WrittenDate(w, d, x, CommaYear(y)), MonthDay(k, d, CommaYear(y)), currentYear);
  }

  /** Without the comma before the year no format reads the date, and
      `parse_date` reports the normalised text. */
  lemma MonthDayYearWithoutCommaFails(w: string, k: nat, d: nat, x: string, y: nat, currentYear: int)
    requires k < |MonthNames| && Lower(w) == MonthNames[k] && NoOrdinalIn(MonthNames[k])
    requires x == [] || Lower(x) in Ordinals
    requires 1 <= d <= 31 && y < 10000 && 1 <= currentYear <= 9999
    ensures ParseDate(Str(WrittenDate(w, d, x, " " + Pad4(y))), currentYear)
         == Failure(ValueError("Date format not recognized: " + NormalizeDate(WrittenDate(w, d, x, " " + Pad4(y)))))
  {
    DigitsUncased(d, y);
    NormalizeMonthDay(w, k, d, x, " " + Pad4(y));
    MonthDayYearWithoutComma(k, d, y);
    NormalizedDateReads(WrittenDate(w, d, x, " " + Pad4(y)), MonthDay(k, d, " " + Pad4(y)), currentYear);
  }

  /** Of the twelve month names only "august" holds one of the deleted
      pairs. */
  lemma OnlyAugustHoldsOrdinal(k: nat)
    requires k < |MonthNames|
    ensures NoOrdinalIn(MonthNames[k]) <==> k != 7
  {
    if k == 7 {
      assert IsOrdinal(MonthNames[7][4], MonthNames[7][5]);
    }
  }

  lemma OctoberWords(w: string, x: string)
    requires w == "October" && x == "th"
    ensures Lower(w) == MonthNames[9] && NoOrdinalIn(MonthNames[9])
    ensures Lower(x) in Ordinals
  {
    assert Lower(w) == MonthNames[9];
    assert Lower(x) == Ordinals[3];
    OnlyAugustHoldsOrdinal(9);
  }

  lemma OctoberText(w: string, x: string)
    requires w == "October" && x == "th"
    ensures WrittenDate(w, 25, x, CommaYear(2025)) == "October 25th, 2025"
  {
    assert Pad2(25) == "25" && Pad2(20) == "20";
  }

  /** The example of the prompt the model is given: "October 25th, 2025"
      is 25 October 2025. */
  lemma OctoberExample(w: string, x: string, currentYear: int)
    requires w == "October" && x == "th" && 1 <= currentYear <= 9999
    ensures WrittenDate(w, 25, x, CommaYear(2025)) == "October 25th, 2025"
    ensures ParseDate(Str(WrittenDate(w, 25, x, CommaYear(2025))), currentYear) == Success(Date(2025, 10, 25))
  {
    OctoberText(w, x);
    OctoberWords(w, x);
    ParseMonthDayYear(w, 9, 25, x, 2025, currentYear);
  }

  // ---------------------------------------------------------------------
  // Names that lose a pair

  /** `%B` matches nowhere the text's first three letters pick a month
      (the only one that could match) whose name differs from the text at
      `i`, or is longer than the text. */
  lemma NoMonthScan(s: string, i: nat)
    requires |s| >= 3 && IsLower(s[0]) && IsLower(s[1]) && IsLower(s[2])
    requires i < |MonthNames[MonthOfLetters(s[0], s[1], s[2])]|
    requires i >= |s| || LowerChar(s[i]) != MonthNames[MonthOfLetters(s[0], s[1], s[2])][i]
    ensures Scan(MonthName, s).None?
  {
    var c := MonthOfLetters(s[0], s[1], s[2]);
    var alts := Alternatives(MonthName);
    forall j | 0 <= j < |alts|
      ensures !StartsWithPattern(s, alts[j])
    {
      var w := MonthNames[j];
      MonthLetters(j);
      assert alts[j] == Word(w);
      if j == c {
        if i < |s| {
          assert !InClass(s[i], Word(w)[i]);
        }
      } else if w[0] != s[0] {
        WordMismatch(s, w, 0);
      } else if w[1] != s[1] {
        WordMismatch(s, w, 1);
      } else {
        WordMismatch(s, w, 2);
      }
    }
    ScanByFirstAlternative(MonthName, s);
  }

  /** `%A` matches nowhere the text's first two letters are no weekday's,
      or pick a weekday whose name differs from the text at `i`. */
  lemma NoWeekdayScan(s: string, i: nat)
    requires |s| >= 2 && IsLower(s[0]) && IsLower(s[1])
    requires WeekdayLetters(s[0], s[1]) ==>
      && i < |WeekdayNames[WeekdayOfLetters(s[0], s[1])]|
      && (i >= |s| || LowerChar(s[i]) != WeekdayNames[WeekdayOfLetters(s[0], s[1])][i])
    ensures Scan(WeekdayName, s).None?
  {
    var alts := Alternatives(WeekdayName);
    forall j | 0 <= j < |alts|
      ensures !StartsWithPattern(s, alts[j])
    {
      var w := WeekdayNames[j];
      WeekdayNameLetters(j);
      assert alts[j] == Word(w);
      if w[0] != s[0] {
        WordMismatch(s, w, 0);
      } else if w[1] != s[1] {
        WordMismatch(s, w, 1);
      } else if i < |s| {
        assert !InClass(s[i], Word(w)[i]);
      }
    }
    ScanByFirstAlternative(WeekdayName, s);
  }

  /** What the deletions leave of the names that hold a pair. */
  const Mangled: seq<string> := ["augu", "moay", "ursday", "satuay", "suay"]

  /** The mangled names, followed by anything but a letter, are read
      neither as a month nor as a weekday. */
  lemma MangledDoNotScan(n: nat, rest: string)
    requires n < |Mangled| && (rest == [] || !IsCased(rest[0]))
    ensures Scan(MonthName, Mangled[n] + rest).None?
    ensures Scan(WeekdayName, Mangled[n] + rest).None?
  {
    var m := Mangled[n];
    var s := m + rest;
    assert forall k :: 0 <= k < |m| ==> s[k] == m[k];
    if n == 0 {
      assert |s| == 4 || s[4] == rest[0];
      AuguNoScan(s);
    } else if n == 1 {
      MoayNoScan(s);
    } else if n == 2 {
      UrsdayNoScan(s);
    } else if n == 3 {
      SatuayNoScan(s);
    } else {
      SuayNoScan(s);
    }
  }

  /** "augu" differs from "august" where the "s" stood. */
  lemma AuguNoScan(s: string)
    requires |s| >= 4 && s[0] == 'a' && s[1] == 'u' && s[2] == 'g' && s[3] == 'u' && (|s| == 4 || !IsCased(s[4]))
    ensures Scan(MonthName, s).None? && Scan(WeekdayName, s).None?
  {
    assert Scan(MonthName, s).None? by {
      NoMonthScan(s, 4);
    }
    assert Scan(WeekdayName, s).None? by {
      NoWeekdayScan(s, 0);
    }
  }

  /** "moay" is neither "may" nor "monday". */
  lemma MoayNoScan(s: string)
    requires |s| >= 4 && s[0] == 'm' && s[1] == 'o' && s[2] == 'a' && s[3] == 'y'
    ensures Scan(MonthName, s).None? && Scan(WeekdayName, s).None?
  {
    assert Scan(MonthName, s).None? by {
      NoMonthScan(s, 1);
    }
    assert Scan(WeekdayName, s).None? by {
      NoWeekdayScan(s, 2);
    }
  }

  /** "ursday" begins like no month and no weekday. */
  lemma UrsdayNoScan(s: string)
    requires |s| >= 3 && s[0] == 'u' && s[1] == 'r' && s[2] == 's'
    ensures Scan(MonthName, s).None? && Scan(WeekdayName, s).None?
  {
    assert Scan(MonthName, s).None? by {
      NoMonthScan(s, 0);
    }
    assert Scan(WeekdayName, s).None? by {
      NoWeekdayScan(s, 0);
    }
  }

  /** "satuay" is neither "september" nor "saturday". */
  lemma SatuayNoScan(s: string)
    requires |s| >= 5 && s[0] == 's' && s[1] == 'a' && s[2] == 't' && s[3] == 'u' && s[4] == 'a'
    ensures Scan(MonthName, s).None? && Scan(WeekdayName, s).None?
  {
    assert Scan(MonthName, s).None? by {
      NoMonthScan(s, 1);
    }
    assert Scan(WeekdayName, s).None? by {
      NoWeekdayScan(s, 4);
    }
  }

  /** "suay" is neither "september" nor "sunday". */
  lemma SuayNoScan(s: string)
    requires |s| >= 4 && s[0] == 's' && s[1] == 'u' && s[2] == 'a' && s[3] == 'y'
    ensures Scan(MonthName, s).None? && Scan(WeekdayName, s).None?
  {
    assert Scan(MonthName, s).None? by {
      NoMonthScan(s, 1);
    }
    assert Scan(WeekdayName, s).None? by {
      NoWeekdayScan(s, 2);
    }
  }

  /** The names, in lower case, that hold one of the pairs. */
  const Losing: seq<string> := ["august", "monday", "thursday", "saturday", "sunday"]

  /** The four deletions, on each side of a boundary before a character
      that is not a letter. */
  lemma DeleteOrdinalsConcat(a: string, b: string)
    requires b == [] || !IsCased(b[0])
    ensures DeleteOrdinals(a + b) == DeleteOrdinals(a) + DeleteOrdinals(b)
    ensures DeleteOrdinals(b) == [] || DeleteOrdinals(b)[0] == b[0]
  {
    var ps := Ordinals;
    assert ps[0] == "st" && ps[1] == "nd" && ps[2] == "rd" && ps[3] == "th";
    var a1, b1 := Delete(a, "st"), Delete(b, "st");
    DeleteConcat(a, b, "st");
    if b != [] {
      DeleteKeepsHead(b, "st");
    }
    var a2, b2 := Delete(a1, "nd"), Delete(b1, "nd");
    DeleteConcat(a1, b1, "nd");
    if b1 != [] {
      DeleteKeepsHead(b1, "nd");
    }
    var a3, b3 := Delete(a2, "rd"), Delete(b2, "rd");
    DeleteConcat(a2, b2, "rd");
    if b2 != [] {
      DeleteKeepsHead(b2, "rd");
    }
    DeleteConcat(a3, b3, "th");
    if b3 != [] {
      DeleteKeepsHead(b3, "th");
    }
  }

  /** "august" loses its "st". */
  lemma AugustDeleted(s: string)
    requires s == "august"
    ensures DeleteOrdinals(s) == "augu"
  {
    var u := "augu";
    assert NoPairBefore(s, "st", 4) by {
      assert s[0] == 'a' && s[1] == 'u' && s[2] == 'g' && s[3] == 'u';
    }
    DeleteAt(s, "st", 4);
    assert Delete(s, "st") == u by {
      assert s[..4] == u && s[6..] == [];
    }
    assert NoPairBefore(u, "nd", 4) && NoPairBefore(u, "rd", 4) && NoPairBefore(u, "th", 4) by {
      assert u[0] == 'a' && u[1] == 'u' && u[2] == 'g' && u[3] == 'u';
    }
    DeleteNone(u, "nd");
    DeleteNone(u, "rd");
    DeleteNone(u, "th");
  }

  /** "monday" loses its "nd". */
  lemma MondayDeleted(s: string)
    requires s == "monday"
    ensures DeleteOrdinals(s) == "moay"
  {
    var u := "moay";
    assert NoPairBefore(s, "st", 6) && NoPairBefore(s, "nd", 2) by {
      assert s[0] == 'm' && s[1] == 'o' && s[2] == 'n' && s[3] == 'd' && s[4] == 'a' && s[5] == 'y';
    }
    DeleteNone(s, "st");
    DeleteAt(s, "nd", 2);
    assert Delete(s, "nd") == u by {
      var tail := s[4..];
      assert NoPairBefore(tail, "nd", 2) by {
        assert tail[0] == 'a' && tail[1] == 'y';
      }
      DeleteNone(tail, "nd");
      assert s[..2] + tail == u;
    }
    assert NoPairBefore(u, "rd", 4) && NoPairBefore(u, "th", 4) by {
      assert u[0] == 'm' && u[1] == 'o' && u[2] == 'a' && u[3] == 'y';
    }
    DeleteNone(u, "rd");
    DeleteNone(u, "th");
  }

  /** "thursday" loses its "th". */
  lemma ThursdayDeleted(s: string)
    requires s == "thursday"
    ensures DeleteOrdinals(s) == "ursday"
  {
    assert NoPairBefore(s, "st", 8) && NoPairBefore(s, "nd", 8) && NoPairBefore(s, "rd", 8) by {
      assert s[0] == 't' && s[1] == 'h' && s[2] == 'u' && s[3] == 'r' && s[4] == 's' && s[5] == 'd' && s[6] == 'a' && s[7] == 'y';
    }
    DeleteNone(s, "st");
    DeleteNone(s, "nd");
    DeleteNone(s, "rd");
    UrsdayKeeps(s[2..]);
  }

  /** After its leading "th", "thursday" holds no other. */
  lemma UrsdayKeeps(u: string)
    requires u == "ursday"
    ensures Delete("th" + u, "th") == u
  {
    assert NoPairBefore(u, "th", 6) by {
      assert u[0] == 'u' && u[1] == 'r' && u[2] == 's' && u[3] == 'd' && u[4] == 'a' && u[5] == 'y';
    }
    DeleteNone(u, "th");
    assert ("th" + u)[..2] == "th" && ("th" + u)[2..] == u;
  }

  /** "saturday" loses its "rd". */
  lemma SaturdayDeleted(s: string)
    requires s == "saturday"
    ensures DeleteOrdinals(s) == "satuay"
  {
    var u := "satuay";
    assert Delete(Delete(s, "st"), "nd") == s by {
      assert NoPairBefore(s, "st", 8) && NoPairBefore(s, "nd", 8) by {
        assert s[0] == 's' && s[1] == 'a' && s[2] == 't' && s[3] == 'u' && s[4] == 'r' && s[5] == 'd' && s[6] == 'a' && s[7] == 'y';
      }
      DeleteNone(s, "st");
      DeleteNone(s, "nd");
    }
    assert Delete(s, "rd") == u by {
      assert NoPairBefore(s, "rd", 4) by {
        assert s[0] == 's' && s[1] == 'a' && s[2] == 't' && s[3] == 'u';
      }
      DeleteAt(s, "rd", 4);
      var tail := s[6..];
      assert NoPairBefore(tail, "rd", 2) by {
        assert tail[0] == 'a' && tail[1] == 'y';
      }
      DeleteNone(tail, "rd");
      assert s[..4] + tail == u;
    }
    assert Delete(u, "th") == u by {
      assert NoPairBefore(u, "th", 6) by {
        assert u[0] == 's' && u[1] == 'a' && u[2] == 't' && u[3] == 'u' && u[4] == 'a' && u[5] == 'y';
      }
      DeleteNone(u, "th");
    }
  }


  /** "sunday" loses its "nd". */
  lemma SundayDeleted(s: string)
    requires s == "sunday"
    ensures DeleteOrdinals(s) == "suay"
  {
    var u := "suay";
    assert NoPairBefore(s, "st", 6) && NoPairBefore(s, "nd", 2) by {
      assert s[0] == 's' && s[1] == 'u' && s[2] == 'n' && s[3] == 'd' && s[4] == 'a' && s[5] == 'y';
    }
    DeleteNone(s, "st");
    DeleteAt(s, "nd", 2);
    assert Delete(s, "nd") == u by {
      var tail := s[4..];
      assert NoPairBefore(tail, "nd", 2) by {
        assert tail[0] == 'a' && tail[1] == 'y';
      }
      DeleteNone(tail, "nd");
      assert s[..2] + tail == u;
    }
    assert NoPairBefore(u, "rd", 4) && NoPairBefore(u, "th", 4) by {
      assert u[0] == 's' && u[1] == 'u' && u[2] == 'a' && u[3] == 'y';
    }
    DeleteNone(u, "rd");
    DeleteNone(u, "th");
  }

  /** Each of the five names is mangled into its counterpart. */
  lemma LosingDeleted(n: nat)
    requires n < |Losing|
    ensures DeleteOrdinals(Losing[n]) == Mangled[n]
  {
    if n == 0 {
      AugustDeleted(Losing[n]);
    } else if n == 1 {
      MondayDeleted(Losing[n]);
    } else if n == 2 {
      ThursdayDeleted(Losing[n]);
    } else if n == 3 {
      SaturdayDeleted(Losing[n]);
    } else {
      SundayDeleted(Losing[n]);
    }
  }

  lemma LosingLength(n: nat)
    requires n < |Losing|
    ensures |Losing[n]| >= 4
  {
  }

  lemma MangledLetters(n: nat)
    requires n < |Mangled|
    ensures |Mangled[n]| >= 4 && forall i :: 0 <= i < |Mangled[n]| ==> IsLower(Mangled[n][i])
  {
  }

  /** Lower-casing and the deletions turn a date text that begins with one
      of the five names into the mangled name followed by the rest of the
      text, lower-cased and with its own pairs deleted. */
  lemma LosingNormalized(w: string, n: nat, rest: string)
    requires n < |Losing| && Lower(w) == Losing[n] && (rest == [] || !IsCased(rest[0]))
    ensures NormalizeDate(w + rest) == Title(Mangled[n] + DeleteOrdinals(Lower(rest)))
    ensures DeleteOrdinals(Lower(rest)) == [] || !IsCased(DeleteOrdinals(Lower(rest))[0])
  {
    LowerAppend(w, rest);
    assert Lower(rest) == [] || !IsCased(Lower(rest)[0]);
    DeleteOrdinalsConcat(Losing[n], Lower(rest));
    LosingDeleted(n);
  }

  /** No format reads a text on which none of "%Y", "%A" and "%B" scans,
      as every format begins with one of them. */
  lemma NoFirstDirective(s: string)
    requires Scan(Year, s).None? && Scan(WeekdayName, s).None? && Scan(MonthName, s).None?
    ensures FirstParsing(DateFormats, s).None?
  {
    DateFormatShapes();
    MatchNoScan(Year, [Lit('-'), Month, Lit('-'), Day], s, NoFields);
    MatchNoScan(WeekdayName, [Lit(','), Spaces, MonthName, Spaces, Day], s, NoFields);
    MatchNoScan(MonthName, [Spaces, Day] + [], s, NoFields);
    MatchNoScan(WeekdayName, [Spaces, MonthName, Spaces, Day], s, NoFields);
    MatchNoScan(MonthName, [Spaces, Day] + [Lit(','), Spaces, Year], s, NoFields);
    MatchNoScan(WeekdayName, [Spaces, Day, Spaces, MonthName], s, NoFields);
    forall j | 0 <= j < |DateFormats|
      ensures Parse(DateFormats[j], s).None?
    {
      if j == 0 {
      } else if j == 1 {
      } else if j == 2 {
      } else if j == 3 {
      } else if j == 4 {
      } else {
        assert j == 5;
      }
    }
  }

  /** None of "%Y", "%A" and "%B", one of which begins every format,
      scans at the start of `s`. */
  predicate NoLeadingDirective(s: string) {
    Scan(Year, s).None? && Scan(WeekdayName, s).None? && Scan(MonthName, s).None?
  }

  /** Case does not matter to the first directive of any format. */
  lemma UnreadIgnoringCase(s: string, t: string)
    requires SameIgnoringCase(s, t) && NoLeadingDirective(t)
    ensures FirstParsing(DateFormats, s).None?
  {
    ScanIgnoresCase(Year, s, t);
    ScanIgnoresCase(WeekdayName, s, t);
    ScanIgnoresCase(MonthName, s, t);
    NoFirstDirective(s);
  }

  /** A mangled name, followed by anything but a letter, is read as
      none of "%Y", "%A" and "%B". */
  lemma MangledScans(n: nat, z: string)
    requires n < |Mangled| && (z == [] || !IsCased(z[0]))
    ensures NoLeadingDirective(Mangled[n] + z)
  {
    MangledLetters(n);
    MangledDoNotScan(n, z);
    ScanYearOnLetter(Mangled[n] + z);
  }

  /** A text that reads, ignoring case, as a mangled name followed by
      anything but a letter is read by no format, even once stripped. */
  lemma MangledTextUnread(n: nat, y: string, t: string)
    requires n < |Mangled| && (y == [] || !IsCased(y[0])) && SameIgnoringCase(t, Mangled[n] + y)
    ensures FirstParsing(DateFormats, Strip(t)).None?
  {
    forall k | 0 <= k <= |y|
      ensures NoLeadingDirective(Mangled[n] + y[..k])
    {
      assert y[..k] == [] || !IsCased(y[..k][0]);
      MangledScans(n, y[..k]);
    }
    MangledLetters(n);
    WordTextUnread(Mangled[n], y, t);
  }

  /** A text that reads, ignoring case, as a word that starts and ends
      with a letter, followed by a rest, is read by no format once
      stripped, when no prefix of it that keeps the word scans as a
      leading directive. */
  lemma WordTextUnread(m: string, y: string, t: string)
    requires m != [] && IsCased(m[0]) && IsCased(m[|m| - 1]) && SameIgnoringCase(t, m + y)
    requires forall k :: 0 <= k <= |y| ==> NoLeadingDirective(m + y[..k])
    ensures FirstParsing(DateFormats, Strip(t)).None?
  {
    StripKeepsWord(m, y, t);
    var k := |Strip(t)| - |m|;
    assert NoLeadingDirective(m + y[..k]);
    UnreadIgnoringCase(Strip(t), m + y[..k]);
  }

  /** A non-empty date that no format reads is refused with its
      normalised text. */
  lemma UnreadDateFails(s: string, currentYear: int)
    requires s != [] && 1 <= currentYear <= 9999
    requires FirstParsing(DateFormats, Strip(NormalizeDate(s))).None?
    ensures ParseDate(Str(s), currentYear) == Failure(ValueError("Date format not recognized: " + NormalizeDate(s)))
  {
  }

  /** A date that begins with "August", "Monday", "Thursday", "Saturday" or
      "Sunday", in any case, followed by anything but a letter, is never
      recognized: the deletions mangle the name, and the mangled name is
      neither a month, a weekday nor a year. */
  lemma LosingNameDatesFail(w: string, n: nat, rest: string, currentYear: int)
    requires n < |Losing| && Lower(w) == Losing[n] && (rest == [] || !IsCased(rest[0]))
    requires 1 <= currentYear <= 9999
    ensures ParseDate(Str(w + rest), currentYear)
         == Failure(ValueError("Date format not recognized: " + NormalizeDate(w + rest)))
  {
    assert FirstParsing(DateFormats, Strip(NormalizeDate(w + rest))).None? by {
      var y := DeleteOrdinals(Lower(rest));
      LosingNormalized(w, n, rest);
      TitleIgnoresCase(Mangled[n] + y);
      MangledTextUnread(n, y, NormalizeDate(w + rest));
    }
    LosingLength(n);
    assert |w| == |Lower(w)|;
    UnreadDateFails(w + rest, currentYear);
  }
}
