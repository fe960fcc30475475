/** The text-processing half of `extract_schedule_from_email`: the reply
    envelope check and the recovery of one JSON block from the model's prose.
    The HTTP call to the language model is external; its decoded reply is an
    input here. */
module LlmAgent {
  import opened Wrappers
  import opened Text
  import opened JsonValue

  /** Why no JSON text could be recovered. */
  datatype ExtractError =
    | NoJsonFound                   // ValueError("No valid JSON found in LLM output")
    | UpstreamError(detail: Json)   // ValueError(result["error"])
    | MissingResponse               // KeyError: 'response'
    | ResponseNotText               // TypeError from re.search on a non-string
    | UndefinedName(name: string)   // NameError
    | ReplyNotJson                  // JSONDecodeError from `response.json()`

  /** Position of the first occurrence of `c` in `s`. */
  function FirstIndex(s: string, c: char): (r: Option<nat>)
    ensures r.Some? ==> r.value < |s| && s[r.value] == c
    ensures r.Some? ==> forall k :: 0 <= k < r.value ==> s[k] != c
    ensures r.None? <==> c !in s
  {
    if s == [] then None
    else if s[0] == c then Some(0)
    else match FirstIndex(s[1..], c)
      case None => None
      case Some(k) => Some(k + 1)
  }

  /** Position of the last occurrence of `c` in `s`. */
  function LastIndex(s: string, c: char): (r: Option<nat>)
    ensures r.Some? ==> r.value < |s| && s[r.value] == c
    ensures r.Some? ==> forall k :: r.value < k < |s| ==> s[k] != c
    ensures r.None? <==> c !in s
  {
    if s == [] then None
    else if s[|s| - 1] == c then Some(|s| - 1)
    else LastIndex(s[..|s| - 1], c)
  }

  /** Some `{` in `raw` has a `}` somewhere after it. */
  ghost predicate HasBracePair(raw: string) {
    exists i, j :: 0 <= i < j < |raw| && raw[i] == '{' && raw[j] == '}'
  }

  /** `re.search(r'{[\s\S]*}', raw).group()`: the leftmost `{` with the
      greedy body extended to the rightmost `}`, newlines included. */
  function FindBlock(raw: string): (r: Option<string>)
    ensures r.Some? <==> HasBracePair(raw)
    ensures r.Some? ==>
      exists i, j :: 0 <= i < j < |raw| && r.value == raw[i..j + 1]
        && raw[i] == '{' && raw[j] == '}'
        && (forall k :: 0 <= k < i ==> raw[k] != '{')
        && (forall k :: j < k < |raw| ==> raw[k] != '}')
  {
    var open := FirstIndex(raw, '{');
    var close := LastIndex(raw, '}');
    if open.Some? && close.Some? && open.value < close.value then
      Some(raw[open.value..close.value + 1])
    else
      None
  }

  /** `s` starts with `//`. */
  predicate StartsComment(s: string) {
    |s| >= 2 && s[0] == '/' && s[1] == '/'
  }

  /** A `//` starts at position `i` of `s`. */
  predicate CommentAt(s: string, i: int)
    requires 0 <= i < |s| - 1
  {
    s[i] == '/' && s[i + 1] == '/'
  }

  /** No `//` occurs anywhere in `s`. */
  predicate NoComment(s: string) {
    forall i :: 0 <= i < |s| - 1 ==> !CommentAt(s, i)
  }

  /** `s` is free of `//` exactly when its tail is and it does not start with one. */
  lemma NoCommentCons(s: string)
    requires s != []
    ensures NoComment(s) <==> NoComment(s[1..]) && !StartsComment(s)
  {
    var t := s[1..];
    forall i | 0 <= i < |t| - 1
      ensures CommentAt(t, i) <==> CommentAt(s, i + 1)
    {
    }
    if NoComment(t) && !StartsComment(s) {
      forall i | 0 <= i < |s| - 1
        ensures !CommentAt(s, i)
      {
        if i > 0 {
          assert !CommentAt(t, i - 1);
        }
      }
    }
    if NoComment(s) {
      forall i | 0 <= i < |t| - 1
        ensures !CommentAt(t, i)
      {
        assert !CommentAt(s, i + 1);
      }
      if |s| >= 2 {
        assert !CommentAt(s, 0);
      }
    }
  }

  /** What is left of `s` after `.*` has consumed everything up to (not
      including) the first newline. */
  function SkipToNewline(s: string): (r: string)
    ensures |r| <= |s| && r == s[|s| - |r|..]
    ensures r == [] || r[0] == '\n'
    ensures forall k :: 0 <= k < |s| - |r| ==> s[k] != '\n'
    decreases |s|
  {
    if s == [] || s[0] == '\n' then s else SkipToNewline(s[1..])
  }

  /** `re.sub(r'//.*', '', s)`: every `//` is deleted together with the rest
      of its line; the newline that ends the line is kept. */
  function RemoveComments(s: string): (r: string)
    ensures |r| <= |s|
    ensures NoComment(r)
    ensures r != [] && !StartsComment(s) ==> r[0] == s[0]
    ensures r != [] && StartsComment(s) ==> r[0] == '\n'
    decreases |s|
  {
    if s == [] then []
    else if StartsComment(s) then
      var rest := SkipToNewline(s);
      var r := RemoveComments(rest);
      assert r != [] ==> rest != [] && !StartsComment(rest);
      r
    else
      var tail := RemoveComments(s[1..]);
      assert s[0] == '/' && tail != [] ==> tail[0] != '/' by {
        if s[0] == '/' && tail != [] && !StartsComment(s[1..]) {
          assert tail[0] == s[1];
        }
      }
      var r := [s[0]] + tail;
      assert r[1..] == tail;
      NoCommentCons(r);
      r
  }

  /** The extraction step of `extract_schedule_from_email` on the model's
      raw text: the block, comment-free and stripped, or `NoJsonFound`. */
  function ExtractJsonBlock(raw: string): (r: Result<string, ExtractError>)
    ensures r.Success? <==> HasBracePair(raw)
    ensures r.Failure? ==> r.error == NoJsonFound
    ensures r.Success? ==> r.value != [] && r.value[0] == '{'
    ensures r.Success? ==> !IsSpace(r.value[|r.value| - 1])
    ensures r.Success? ==> NoComment(r.value)
  {
    match FindBlock(raw)
    case None => Failure(NoJsonFound)
    case Some(block) =>
      var cleaned := RemoveComments(block);
      assert cleaned != [] && cleaned[0] == '{';
      var out := Strip(cleaned);
      StripKeepsNoComment(cleaned);
      Success(out)
  }

  lemma StripKeepsNoComment(s: string)
    requires NoComment(s)
    ensures NoComment(Strip(s))
  {
    StripIsInfix(s);
    InfixKeepsNoComment(s, |s| - |LStrip(s)|, Strip(s));
  }

  /** A contiguous piece of `//`-free text is `//`-free. */
  lemma InfixKeepsNoComment(s: string, a: nat, r: string)
    requires NoComment(s) && InfixAt(r, s, a)
    ensures NoComment(r)
  {
    forall i | 0 <= i < |r| - 1
      ensures !CommentAt(r, i)
    {
      assert !CommentAt(s, a + i);
      assert r[i] == s[a + i] && r[i + 1] == s[a + i + 1];
    }
  }

  /** The reply-envelope handling of `extract_schedule_from_email` with the
      undefined-name check removed: an `error` entry is raised as it is,
      otherwise the `response` text goes through `ExtractJsonBlock`. */
  function ExtractFromReply(reply: seq<Field>): (r: Result<string, ExtractError>)
    ensures HasKey(reply, "error") ==> r == Failure(UpstreamError(Get(reply, "error")))
    ensures r.Success? <==>
      !HasKey(reply, "error") && Get(reply, "response").Str? && HasBracePair(Get(reply, "response").s)
    ensures r.Success? ==> r == ExtractJsonBlock(Get(reply, "response").s)
    ensures !HasKey(reply, "error") && !HasKey(reply, "response") ==> r == Failure(MissingResponse)
    ensures (!HasKey(reply, "error") && HasKey(reply, "response") && !Get(reply, "response").Str?)
              ==> r == Failure(ResponseNotText)
    ensures (!HasKey(reply, "error") && Get(reply, "response").Str? && !HasBracePair(Get(reply, "response").s))
              ==> r == Failure(NoJsonFound)
  {
    if HasKey(reply, "error") then Failure(UpstreamError(Get(reply, "error")))
    else match Lookup(reply, "response")
      case None => Failure(MissingResponse)
      case Some(Str(text)) => ExtractJsonBlock(text)
      case Some(_) => Failure(ResponseNotText)
  }

  /** `extract_schedule_from_email` as written: before the envelope is looked
      at, the missing-date guard reads `data`, a name bound nowhere in the
      function or its module, so every call raises `NameError`. */
  function ExtractScheduleAsWritten(reply: seq<Field>): (r: Result<string, ExtractError>)
  {
    Failure(UndefinedName("data"))
  }
}

/** Properties of the extraction step, stated against independent
    descriptions of what the regular expressions match. */
module LlmAgentProperties {
  import opened Wrappers
  import opened Text
  import opened JsonValue
  import opened LlmAgent

  /** Position of the first `//` in `s`. */
  function FindComment(s: string): (r: Option<nat>)
    ensures r.Some? ==> r.value + 1 < |s| && s[r.value] == '/' && s[r.value + 1] == '/'
    ensures r.Some? ==> NoComment(s[..r.value + 1])
    ensures r.None? <==> NoComment(s)
    decreases |s|
  {
    if |s| < 2 then None
    else if StartsComment(s) then
      assert CommentAt(s, 0);
      Some(0)
    else
      NoCommentCons(s);
      match FindComment(s[1..])
      case None => None
      case Some(k) =>
        assert s[..k + 2][1..] == s[1..][..k + 1];
        NoCommentCons(s[..k + 2]);
        Some(k + 1)
  }

  /** One line (no newline in it) with its comment cut off: everything
      before its first `//`. */
  function CutComment(line: string): string {
    match FindComment(line)
    case Some(k) => line[..k]
    case None => line
  }

  /** Comment removal described line by line: split at each newline, cut each
      line at its first `//`, and join the lines again. */
  function RemoveCommentsByLine(s: string): string
    decreases |s|
  {
    match FirstIndex(s, '\n')
    case None => CutComment(s)
    case Some(k) => CutComment(s[..k]) + "\n" + RemoveCommentsByLine(s[k + 1..])
  }

  lemma {:induction false} SkipWholeLine(line: string, t: string)
    requires '\n' !in line
    requires t == [] || t[0] == '\n'
    ensures SkipToNewline(line + t) == t
    decreases |line|
  {
    if line == [] {
      assert line + t == t;
    } else {
      assert (line + t)[1..] == line[1..] + t;
      SkipWholeLine(line[1..], t);
    }
  }

  /** A line that starts with `//` is dropped whole, up to its newline. */
  lemma CommentedLine(line: string, t: string)
    requires '\n' !in line
    requires t == [] || t[0] == '\n'
    requires line != [] && StartsComment(line + t)
    ensures CutComment(line) == []
    ensures RemoveComments(line + t) == RemoveComments(t)
  {
    assert |line| >= 2 && StartsComment(line);
    assert FindComment(line) == Some(0);
    SkipWholeLine(line, t);
  }

  /** A line that does not start with `//` keeps its first character. */
  lemma UncommentedLine(line: string, t: string)
    requires line != [] && !StartsComment(line + t)
    ensures RemoveComments(line + t) == [line[0]] + RemoveComments(line[1..] + t)
  {
    assert (line + t)[1..] == line[1..] + t;
  }

  lemma {:induction false} CommentsOfLineThenRest(line: string, t: string)
    requires '\n' !in line
    requires t == [] || t[0] == '\n'
    ensures RemoveComments(line + t) == CutComment(line) + RemoveComments(t)
    decreases |line|
  {
    if line == [] {
      assert line + t == t;
    } else if StartsComment(line + t) {
      CommentedLine(line, t);
    } else {
      assert '\n' !in line[1..];
      CommentsOfLineThenRest(line[1..], t);
      UncommentedStep(line, t);
    }
  }

  lemma UncommentedStep(line: string, t: string)
    requires line != [] && !StartsComment(line + t)
    requires RemoveComments(line[1..] + t) == CutComment(line[1..]) + RemoveComments(t)
    ensures RemoveComments(line + t) == CutComment(line) + RemoveComments(t)
  {
    assert !StartsComment(line);
    CutCommentCons(line);
    SeqAssoc([line[0]], CutComment(line[1..]), RemoveComments(t));
    calc {
      RemoveComments(line + t);
      { UncommentedLine(line, t); }
      [line[0]] + RemoveComments(line[1..] + t);
      [line[0]] + (CutComment(line[1..]) + RemoveComments(t));
      ([line[0]] + CutComment(line[1..])) + RemoveComments(t);
      CutComment(line) + RemoveComments(t);
    }
  }

  lemma SeqAssoc(a: string, b: string, c: string)
    ensures a + (b + c) == (a + b) + c
  {
  }

  lemma CutCommentCons(line: string)
    requires line != [] && !StartsComment(line)
    ensures CutComment(line) == [line[0]] + CutComment(line[1..])
  {
    if |line| >= 2 {
      match FindComment(line[1..])
      case None =>
      case Some(k) =>
        assert line[..k + 1] == [line[0]] + line[1..][..k];
    } else {
      assert line[1..] == [];
    }
  }

  /** `re.sub(r'//.*', '', s)` keeps every newline and, on each line, exactly
      the text before that line's first `//`. */
  lemma {:induction false} RemoveCommentsIsLineWise(s: string)
    ensures RemoveComments(s) == RemoveCommentsByLine(s)
    decreases |s|
  {
    match FirstIndex(s, '\n')
    case None =>
      CommentsOfLineThenRest(s, []);
      assert s + [] == s;
    case Some(k) =>
      var rest := s[k + 1..];
      RemoveCommentsIsLineWise(rest);
      SplitAtNewline(s, k);
  }

  lemma SplitAt(s: string, k: nat)
    requires k < |s|
    ensures s == s[..k] + ([s[k]] + s[k + 1..])
  {
  }

  lemma SplitAtNewline(s: string, k: nat)
    requires FirstIndex(s, '\n') == Some(k)
    requires RemoveComments(s[k + 1..]) == RemoveCommentsByLine(s[k + 1..])
    ensures RemoveComments(s) == RemoveCommentsByLine(s)
  {
    var line, rest := s[..k], s[k + 1..];
    var nrest := "\n" + rest;
    SplitAt(s, k);
    assert nrest[1..] == rest;
    assert '\n' !in line;
    calc {
      RemoveComments(s);
      { CommentsOfLineThenRest(line, nrest); }
      CutComment(line) + RemoveComments(nrest);
      { assert !StartsComment(nrest); }
      CutComment(line) + ("\n" + RemoveComments(rest));
      { SeqAssoc(CutComment(line), "\n", RemoveComments(rest)); }
      CutComment(line) + "\n" + RemoveCommentsByLine(rest);
      RemoveCommentsByLine(s);
    }
  }

  /** Text without `//` is left alone, so a second removal pass changes nothing. */
  lemma {:induction false} RemoveCommentsIdentity(s: string)
    requires NoComment(s)
    ensures RemoveComments(s) == s
    decreases |s|
  {
    if s != [] {
      NoCommentCons(s);
      RemoveCommentsIdentity(s[1..]);
    }
  }

  lemma RemoveCommentsIdempotent(s: string)
    ensures RemoveComments(RemoveComments(s)) == RemoveComments(s)
  {
    RemoveCommentsIdentity(RemoveComments(s));
  }

  /** A block that starts with `{`, ends with `}`, has no `//` and no
      surrounding whitespace is extracted as itself. */
  lemma ExtractClosedBlock(x: string)
    requires |x| >= 2 && x[0] == '{' && x[|x| - 1] == '}' && NoComment(x)
    ensures ExtractJsonBlock(x) == Success(x)
  {
    WholeBlock(x);
    RemoveCommentsIdentity(x);
    StripsToItself(x);
    ExtractOfCleanBlock(x, x);
  }

  lemma ExtractOfCleanBlock(raw: string, block: string)
    requires FindBlock(raw) == Some(block)
    requires RemoveComments(block) == block && Strip(block) == block
    ensures ExtractJsonBlock(raw) == Success(block)
  {
    ExtractOfBlock(raw, block);
  }

  /** Text that opens with `{` and closes with `}` is its own block. */
  lemma WholeBlock(x: string)
    requires |x| >= 2 && x[0] == '{' && x[|x| - 1] == '}'
    ensures FindBlock(x) == Some(x)
  {
    assert FirstIndex(x, '{') == Some(0);
    assert LastIndex(x, '}') == Some(|x| - 1);
    assert x[0..|x|] == x;
  }

  lemma ExtractOfBlock(raw: string, block: string)
    requires FindBlock(raw) == Some(block)
    ensures ExtractJsonBlock(raw) == Success(Strip(RemoveComments(block)))
  {
  }

  /** Extraction never lengthens its input. */
  lemma ExtractShortens(x: string)
    requires ExtractJsonBlock(x).Success?
    ensures |ExtractJsonBlock(x).value| <= |x|
    ensures |ExtractJsonBlock(x).value| == |x| ==> x[|x| - 1] == '}'
  {
    var block := FindBlock(x).value;
    var i, j :| 0 <= i < j < |x| && block == x[i..j + 1] && x[i] == '{' && x[j] == '}';
    assert |ExtractJsonBlock(x).value| <= |block|;
  }

  /** Feeding an extracted block back into the extractor returns it unchanged
      exactly when it still ends with `}`; a `}` lost to comment removal makes
      the second extraction find something else or nothing. */
  lemma ReExtraction(raw: string, x: string)
    requires ExtractJsonBlock(raw) == Success(x)
    ensures ExtractJsonBlock(x) == Success(x) <==> x[|x| - 1] == '}'
  {
    ReExtractionOfClean(x);
  }

  lemma ReExtractionOfClean(x: string)
    requires x != [] && x[0] == '{' && NoComment(x)
    ensures ExtractJsonBlock(x) == Success(x) <==> x[|x| - 1] == '}'
  {
    if x[|x| - 1] == '}' {
      ExtractClosedBlock(x);
    } else {
      NotClosedNotSelf(x);
    }
  }

  lemma NotClosedNotSelf(x: string)
    requires x != [] && x[|x| - 1] != '}'
    ensures ExtractJsonBlock(x) != Success(x)
  {
    if ExtractJsonBlock(x).Success? {
      ExtractShortens(x);
    }
  }

  /** On a line, `//` starts a comment even inside a JSON string literal:
      the text from it to the end of the line is lost. */
  lemma {:induction false} CommentCutsStringLiteral(a: string, b: string)
    requires '/' !in a && '\n' !in b
    ensures RemoveComments(a + "//" + b) == a
    decreases |a|
  {
    if a == [] {
      assert a + "//" + b == "//" + b;
      SkipWholeLine("//" + b, []);
      assert "//" + b + [] == "//" + b;
    } else {
      assert (a + "//" + b)[1..] == a[1..] + "//" + b;
      CommentCutsStringLiteral(a[1..], b);
      assert a == [a[0]] + a[1..];
    }
  }

  /** Extraction of a reply that is one `{...}` block with a `//` in it. */
  lemma ExtractCommentedBlock(a: string, b: string)
    requires |a| >= 1 && a[0] == '{' && '/' !in a
    requires |b| >= 1 && b[|b| - 1] == '}' && '\n' !in b
    ensures ExtractJsonBlock(a + "//" + b) == Success(Strip(a))
  {
    var raw := a + "//" + b;
    WholeBlock(raw);
    ExtractOfBlock(raw, raw);
    CommentCutsStringLiteral(a, b);
  }

  /** A URL value is truncated after `https:`, leaving unbalanced JSON. */
  lemma UrlValueIsTruncated()
    ensures ExtractJsonBlock(UrlReply) == Success(UrlHead)
  {
    UrlReplySplits();
    UrlPiecesFit();
    ExtractCommentedBlock(UrlHead, UrlTail);
    StripsToItself(UrlHead);
  }

  const UrlReply: string := "{\"link\": \"https://meet.example.com\"}"
  const UrlHead: string := "{\"link\": \"https:"
  const UrlTail: string := "meet.example.com\"}"

  lemma UrlReplySplits()
    ensures UrlHead + "//" + UrlTail == UrlReply
  {
  }

  lemma UrlPiecesFit()
    ensures |UrlHead| >= 1 && UrlHead[0] == '{' && '/' !in UrlHead
    ensures !IsSpace(UrlHead[|UrlHead| - 1])
    ensures |UrlTail| >= 1 && UrlTail[|UrlTail| - 1] == '}' && '\n' !in UrlTail
  {
  }

  /** A `}` on the same line after `//` is removed, so the result need not
      end with `}`. */
  lemma ClosingBraceAfterCommentIsLost()
    ensures ExtractJsonBlock(BraceReply) == Success(BraceHead)
  {
    BraceReplySplits();
    BracePiecesFit();
    ExtractCommentedBlock(BraceHead + " ", BraceTail);
    StripTrailingSpace(BraceHead);
  }

  const BraceReply: string := "{\"a\": 1 // one }"
  const BraceHead: string := "{\"a\": 1"
  const BraceTail: string := " one }"

  lemma BraceReplySplits()
    ensures BraceHead + " " + "//" + BraceTail == BraceReply
  {
  }

  lemma BracePiecesFit()
    ensures |BraceHead| >= 1 && BraceHead[0] == '{' && '/' !in BraceHead + " "
    ensures !IsSpace(BraceHead[|BraceHead| - 1])
    ensures |BraceTail| >= 1 && BraceTail[|BraceTail| - 1] == '}' && '\n' !in BraceTail
  {
  }

  /** A `}` that only occurs before every `{` gives no match. */
  lemma BracesInWrongOrder()
    ensures ExtractJsonBlock("} no event {") == Failure(NoJsonFound)
  {
    var x, y := "} no event ", "{";
    assert x + y == "} no event {";
    NoPairAcrossSplit(x, y);
  }

  /** When every `{` comes after every `}`, there is no block. */
  lemma NoPairAcrossSplit(x: string, y: string)
    requires '{' !in x && '}' !in y
    ensures !HasBracePair(x + y)
  {
    var raw := x + y;
    forall i, j | 0 <= i < j < |raw| && raw[i] == '{'
      ensures raw[j] != '}'
    {
      if i >= |x| {
        assert raw[j] == y[j - |x|];
      }
    }
  }

  lemma StripTrailingSpace(s: string)
    requires s != [] && !IsSpace(s[0]) && !IsSpace(s[|s| - 1])
    ensures Strip(s + " ") == s
  {
    var t := s + " ";
    assert LStrip(t) == t;
    assert t[..|t| - 1] == s;
  }

  lemma StripsToItself(s: string)
    requires s != [] && !IsSpace(s[0]) && !IsSpace(s[|s| - 1])
    ensures Strip(s) == s
  {
  }

  /** As written, `extract_schedule_from_email` fails on a reply from which
      the corrected envelope handling recovers `{}`. */
  lemma NameErrorOnEveryReply()
    ensures ExtractScheduleAsWritten([Field("response", Str("{}"))]) == Failure(UndefinedName("data"))
    ensures ExtractFromReply([Field("response", Str("{}"))]) == Success("{}")
  {
    ExtractClosedBlock("{}");
    assert Lookup([Field("response", Str("{}"))], "error") == None;
    assert Lookup([Field("response", Str("{}"))], "response") == Some(Str("{}"));
  }
}
