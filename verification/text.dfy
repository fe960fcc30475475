/** The parts of Python's `str` type the scheduler relies on. Case mapping
    covers ASCII letters only; every other character is left as it is. */
module Text {

  /** `c.isspace()`: the characters Python strips and `\s` matches. */
  predicate IsSpace(c: char) {
    || ('\t' <= c <= '\r')
    || ('\U{1C}' <= c <= ' ')
    || c == '\U{85}' || c == '\U{A0}' || c == '\U{1680}'
    || ('\U{2000}' <= c <= '\U{200A}')
    || c == '\U{2028}' || c == '\U{2029}' || c == '\U{202F}'
    || c == '\U{205F}' || c == '\U{3000}'
  }

  predicate IsDigit(c: char) {
    '0' <= c <= '9'
  }

  function DigitValue(c: char): (d: nat)
    requires IsDigit(c)
    ensures d < 10
  {
    c as int - '0' as int
  }

  predicate IsUpper(c: char) {
    'A' <= c <= 'Z'
  }

  predicate IsLower(c: char) {
    'a' <= c <= 'z'
  }

  /** A character that has case, in the ASCII approximation. */
  predicate IsCased(c: char) {
    IsUpper(c) || IsLower(c)
  }

  function LowerChar(c: char): (r: char)
    ensures !IsUpper(r)
    ensures IsCased(r) <==> IsCased(c)
  {
    if IsUpper(c) then (c as int + 32) as char else c
  }

  function UpperChar(c: char): (r: char)
    ensures !IsLower(r)
    ensures IsCased(r) <==> IsCased(c)
  {
    if IsLower(c) then (c as int - 32) as char else c
  }

  /** Characters that read the same lower-cased agree on having case, and
      when they have none they are the same character. */
  lemma SameLowerChar(a: char, b: char)
    requires LowerChar(a) == LowerChar(b)
    ensures IsCased(a) <==> IsCased(b)
    ensures !IsCased(a) ==> a == b
  {
  }

  /** The two texts are equal once lower-cased. */
  predicate SameIgnoringCase(a: string, b: string) {
    |a| == |b| && forall i :: 0 <= i < |a| ==> LowerChar(a[i]) == LowerChar(b[i])
  }

  /** `s.lower()` */
  function Lower(s: string): (r: string)
    ensures |r| == |s|
    ensures forall i :: 0 <= i < |s| ==> r[i] == LowerChar(s[i])
  {
    if s == [] then [] else [LowerChar(s[0])] + Lower(s[1..])
  }

  /** `s.title()`: a cased character is upper-cased when the character before
      it is uncased (or it starts the string), and lower-cased otherwise. */
  function Title(s: string): (r: string)
    ensures |r| == |s|
  {
    TitleAfter(s, false)
  }

  function TitleAfter(s: string, previousCased: bool): (r: string)
    ensures |r| == |s|
    ensures forall i :: 0 <= i < |s| ==> LowerChar(r[i]) == LowerChar(s[i])
  {
    if s == [] then []
    else
      var c := if previousCased then LowerChar(s[0]) else UpperChar(s[0]);
      [c] + TitleAfter(s[1..], IsCased(s[0]))
  }

  /** `s.lstrip()` */
  function LStrip(s: string): (r: string)
    ensures |r| <= |s| && r == s[|s| - |r|..]
    ensures r != [] ==> !IsSpace(r[0])
    ensures s != [] && !IsSpace(s[0]) ==> r == s
    ensures forall i :: 0 <= i < |s| - |r| ==> IsSpace(s[i])
    decreases |s|
  {
    if s != [] && IsSpace(s[0]) then LStrip(s[1..]) else s
  }

  /** `s.rstrip()` */
  function RStrip(s: string): (r: string)
    ensures |r| <= |s| && r == s[..|r|]
    ensures r != [] ==> !IsSpace(r[|r| - 1])
    ensures s != [] && !IsSpace(s[|s| - 1]) ==> r == s
    ensures s != [] && !IsSpace(s[0]) ==> r != []
    ensures forall i :: |r| <= i < |s| ==> IsSpace(s[i])
    decreases |s|
  {
    if s != [] && IsSpace(s[|s| - 1]) then RStrip(s[..|s| - 1]) else s
  }

  /** `s.strip()`: the longest infix that neither starts nor ends with whitespace. */
  function Strip(s: string): (r: string)
    ensures |r| <= |s|
    ensures r != [] ==> !IsSpace(r[0]) && !IsSpace(r[|r| - 1])
    ensures s != [] && !IsSpace(s[0]) ==> r != [] && r[0] == s[0]
    ensures s != [] && !IsSpace(s[0]) && !IsSpace(s[|s| - 1]) ==> r == s
  {
    RStrip(LStrip(s))
  }

  /** `r` occurs in `s` starting at position `a`. */
  predicate InfixAt(r: string, s: string, a: nat) {
    a + |r| <= |s| && forall i :: 0 <= i < |r| ==> r[i] == s[a + i]
  }

  /** The stripped text is the infix of `s` that starts where the leading
      whitespace ends; everything before and after it is whitespace. */
  lemma StripIsInfix(s: string)
    ensures InfixAt(Strip(s), s, |s| - |LStrip(s)|)
    ensures forall i :: 0 <= i < |s| - |LStrip(s)| ==> IsSpace(s[i])
    ensures forall i :: |s| - |LStrip(s)| + |Strip(s)| <= i < |s| ==> IsSpace(s[i])
  {
    var l := LStrip(s);
    var r := RStrip(l);
    var a := |s| - |l|;
    assert l == s[a..];
    assert r == l[..|r|];
    forall i | 0 <= i < |r|
      ensures r[i] == s[a + i]
    {
      assert r[i] == l[i] == s[a + i];
    }
    forall i | a + |r| <= i < |s|
      ensures IsSpace(s[i])
    {
      assert s[i] == l[i - a];
    }
  }

  /** `s.replace(pattern, "")`: occurrences are found left to right without
      overlap and the result is not scanned again. */
  function Delete(s: string, pattern: string): (r: string)
    requires pattern != []
    ensures |r| <= |s|
    decreases |s|
  {
    if |s| < |pattern| then s
    else if s[..|pattern|] == pattern then Delete(s[|pattern|..], pattern)
    else [s[0]] + Delete(s[1..], pattern)
  }

  /** No occurrence of the two-character pattern `p` starts before `n`. */
  predicate NoPairBefore(s: string, p: string, n: nat)
    requires |p| == 2
  {
    forall i :: 0 <= i < n && i + 1 < |s| ==> !(s[i] == p[0] && s[i + 1] == p[1])
  }

  /** Deleting a two-character pattern leaves alone the part of the text
      before `n` when no occurrence starts there. */
  lemma {:induction false} DeleteSplice(s: string, p: string, n: nat)
    requires |p| == 2 && n <= |s| && NoPairBefore(s, p, n)
    ensures Delete(s, p) == s[..n] + Delete(s[n..], p)
    decreases n
  {
    if n == 0 {
      assert s[..0] + Delete(s[0..], p) == Delete(s, p);
    } else if |s| < 2 {
      assert s[..n] == s && s[n..] == [] && Delete([], p) == [];
    } else {
      assert s[..2] != p by {
        assert !(s[0] == p[0] && s[1] == p[1]);
        assert s[..2][0] == s[0] && s[..2][1] == s[1];
      }
      var s' := s[1..];
      assert NoPairBefore(s', p, n - 1) by {
        forall i | 0 <= i < n - 1 && i + 1 < |s'|
          ensures !(s'[i] == p[0] && s'[i + 1] == p[1])
        {
          assert s'[i] == s[i + 1] && s'[i + 1] == s[i + 2];
        }
      }
      DeleteSplice(s', p, n - 1);
      assert Delete(s, p) == [s[0]] + Delete(s', p);
      assert s'[n - 1..] == s[n..];
      assert s[..n] == [s[0]] + s'[..n - 1];
    }
  }

  /** `sep.join(parts)` */
  function Join(parts: seq<string>, sep: string): string {
    if parts == [] then ""
    else if |parts| == 1 then parts[0]
    else parts[0] + sep + Join(parts[1..], sep)
  }

  function DigitChar(d: nat): (c: char)
    requires d < 10
    ensures IsDigit(c) && DigitValue(c) == d
  {
    ('0' as int + d) as char
  }

  /** `str(n)` for a natural number. */
  function NatToDecimal(n: nat): (r: string)
    ensures r != []
    ensures forall i :: 0 <= i < |r| ==> IsDigit(r[i])
    decreases n
  {
    if n < 10 then [DigitChar(n)] else NatToDecimal(n / 10) + [DigitChar(n % 10)]
  }

  /** `str(n)` for an integer: an optional minus sign, then the digits. */
  function IntToDecimal(n: int): (r: string)
    ensures r != []
    ensures IsDigit(r[|r| - 1])
    ensures r[0] == '-' || IsDigit(r[0])
  {
    if n < 0 then "-" + NatToDecimal(-n) else NatToDecimal(n)
  }

  /** Text without capitals is its own lower-case form. */
  lemma {:induction false} LowerIdentity(s: string)
    requires forall i :: 0 <= i < |s| ==> !IsUpper(s[i])
    ensures Lower(s) == s
  {
    if s != [] {
      LowerIdentity(s[1..]);
      assert s == [s[0]] + s[1..];
    }
  }

  /** Text without cased characters is unchanged by title-casing. */
  lemma {:induction false} TitleIdentity(s: string, previousCased: bool)
    requires forall i :: 0 <= i < |s| ==> !IsCased(s[i])
    ensures TitleAfter(s, previousCased) == s
  {
    if s != [] {
      TitleIdentity(s[1..], false);
      assert s == [s[0]] + s[1..];
    }
  }

  /** `pattern` occurs in `s` at position `i`. */
  predicate OccursAt(pattern: string, s: string, i: int) {
    0 <= i && i + |pattern| <= |s| && s[i..i + |pattern|] == pattern
  }

  /** `pattern in s` for strings. */
  ghost predicate Occurs(pattern: string, s: string) {
    exists i :: OccursAt(pattern, s, i)
  }

  /** Deleting a pattern that does not occur changes nothing. */
  lemma {:induction false} DeleteAbsent(s: string, pattern: string)
    requires pattern != [] && !Occurs(pattern, s)
    ensures Delete(s, pattern) == s
    decreases |s|
  {
    if |s| >= |pattern| {
      assert !OccursAt(pattern, s, 0);
      assert s[0..|pattern|] == s[..|pattern|];
      forall i | OccursAt(pattern, s[1..], i)
        ensures false
      {
        assert s[1..][i..i + |pattern|] == s[i + 1..i + 1 + |pattern|];
        assert OccursAt(pattern, s, i + 1);
      }
      DeleteAbsent(s[1..], pattern);
      assert s == [s[0]] + s[1..];
    }
  }

  /** A pattern whose first character is missing from `s` does not occur in it. */
  lemma FirstCharAbsent(s: string, pattern: string)
    requires pattern != [] && pattern[0] !in s
    ensures !Occurs(pattern, s)
  {
  }

  /** `s.replace(pattern, "")` returns `s` itself exactly when the pattern
      does not occur in it. */
  lemma DeleteUnchangedIff(s: string, pattern: string)
    requires pattern != []
    ensures Delete(s, pattern) == s <==> !Occurs(pattern, s)
  {
    if Occurs(pattern, s) {
      var i :| OccursAt(pattern, s, i);
      DeleteShortens(s, pattern, i);
    } else {
      DeleteAbsent(s, pattern);
    }
  }

  /** A deletion shortens the text exactly when the pattern occurs in it. */
  lemma {:induction false} DeleteShortens(s: string, pattern: string, i: nat)
    requires pattern != [] && i + |pattern| <= |s| && s[i..i + |pattern|] == pattern
    ensures |Delete(s, pattern)| <= |s| - |pattern|
    decreases |s|
  {
    if s[..|pattern|] != pattern {
      assert i > 0;
      assert s[1..][i - 1..i - 1 + |pattern|] == s[i..i + |pattern|];
      DeleteShortens(s[1..], pattern, i - 1);
    }
  }

  /** A deletion cannot reach across a boundary before a character that
      is not a letter. */
  lemma {:induction false} DeleteConcat(a: string, b: string, p: string)
    requires |p| == 2 && IsCased(p[0]) && IsCased(p[1]) && (b == [] || !IsCased(b[0]))
    ensures Delete(a + b, p) == Delete(a, p) + Delete(b, p)
    decreases |a|
  {
    var s := a + b;
    if a == [] {
      assert s == b;
    } else if |a| == 1 {
      if b == [] {
        assert s == a;
      } else {
        assert s[..2] != p by {
          assert s[1] == b[0];
        }
        assert s[1..] == b;
      }
    } else if a[..2] == p {
      assert s[..2] == p && s[2..] == a[2..] + b;
      DeleteConcat(a[2..], b, p);
    } else {
      assert s[..2] == a[..2] && s[1..] == a[1..] + b;
      DeleteConcat(a[1..], b, p);
    }
  }

  /** A deletion keeps a first character that is not a letter. */
  lemma DeleteKeepsHead(b: string, p: string)
    requires |p| == 2 && IsCased(p[0]) && b != [] && !IsCased(b[0])
    ensures Delete(b, p) != [] && Delete(b, p)[0] == b[0]
  {
    if |b| >= 2 {
      assert b[..2] != p by {
        assert b[..2][0] == b[0];
      }
    }
  }

  /** Deleting a pair that first occurs at `n`. */
  lemma DeleteAt(s: string, p: string, n: nat)
    requires |p| == 2 && n + 2 <= |s| && NoPairBefore(s, p, n) && s[n] == p[0] && s[n + 1] == p[1]
    ensures Delete(s, p) == s[..n] + Delete(s[n + 2..], p)
  {
    DeleteSplice(s, p, n);
    var u := s[n..];
    assert u[..2] == p && u[2..] == s[n + 2..];
  }

  /** Deleting a pair that does not occur. */
  lemma DeleteNone(s: string, p: string)
    requires |p| == 2 && NoPairBefore(s, p, |s|)
    ensures Delete(s, p) == s
  {
    DeleteSplice(s, p, |s|);
    assert s[..|s|] == s && s[|s|..] == [];
  }

  /** A text that does not start with whitespace loses only trailing
      whitespace when stripped. */
  lemma StripPrefix(t: string)
    requires t != [] && !IsSpace(t[0])
    ensures Strip(t) == t[..|Strip(t)|]
    ensures forall i :: |Strip(t)| <= i < |t| ==> IsSpace(t[i])
  {
    StripIsInfix(t);
    assert LStrip(t) == t;
  }

  /** Stripping a text that reads, ignoring case, as a word that starts
      and ends with a letter, followed by a rest, keeps the whole word and
      a prefix of the rest. */
  lemma StripKeepsWord(m: string, y: string, t: string)
    requires m != [] && IsCased(m[0]) && IsCased(m[|m| - 1]) && SameIgnoringCase(t, m + y)
    ensures |m| <= |Strip(t)| <= |t|
    ensures SameIgnoringCase(Strip(t), m + y[..|Strip(t)| - |m|])
  {
    var k := |m| - 1;
    var r := Strip(t);
    assert r == t[..|r|] && |r| > k by {
      CasedAt(t, m + y, 0);
      CasedAt(t, m + y, k);
      StripPrefix(t);
    }
    SameIgnoringCasePrefix(t, m + y, |r|);
    assert (m + y)[..|r|] == m + y[..|r| - |m|];
  }

  /** Where one of two texts equal ignoring case has a letter, so has the
      other. */
  lemma CasedAt(s: string, t: string, i: nat)
    requires SameIgnoringCase(s, t) && i < |t| && IsCased(t[i])
    ensures IsCased(s[i]) && !IsSpace(s[i])
  {
    assert LowerChar(s[i]) == LowerChar(t[i]);
  }

  /** Prefixes of texts equal ignoring case are equal ignoring case. */
  lemma SameIgnoringCasePrefix(s: string, t: string, n: nat)
    requires SameIgnoringCase(s, t) && n <= |s|
    ensures SameIgnoringCase(s[..n], t[..n])
  {
    assert forall i :: 0 <= i < n ==> s[..n][i] == s[i] && t[..n][i] == t[i];
  }
}
