/**
  The character-level cleanup stages of `TextPreprocessor`
  (core/text_preprocessor.py): `_remove_control_chars`, `_fix_whitespace`
  and `_normalize_punctuation`. Each regular-expression substitution is a
  left-to-right scanner with the same matching rule as `re.sub`.
 */
module Cleanup {
  import opened Text

  /** The class `[\x00-\x08\x0b\x0c\x0e-\x1f\x7f]`: ASCII controls other than
      tab, line feed and carriage return. */
  predicate IsControl(c: char) {
    '\0' <= c <= '\U{08}' || c == '\U{0b}' || c == '\U{0c}' || '\U{0e}' <= c <= '\U{1f}' || c == '\U{7f}'
  }

  /** `[ \t]` */
  predicate IsBlank(c: char) {
    c == ' ' || c == '\t'
  }

  /** `[.,;:!?]` */
  predicate IsPunct(c: char) {
    c == '.' || c == ',' || c == ';' || c == ':' || c == '!' || c == '?'
  }

  ghost predicate NoControl(s: string) {
    forall c :: c in s ==> !IsControl(c)
  }

  ghost predicate NoTab(s: string) {
    forall i :: 0 <= i < |s| ==> s[i] != '\t'
  }

  ghost predicate NoDoubleSpace(s: string) {
    forall i :: 0 <= i < |s| - 1 ==> !(s[i] == ' ' && s[i + 1] == ' ')
  }

  ghost predicate NoTripleNewline(s: string) {
    forall i :: 0 <= i < |s| - 2 ==> !(s[i] == '\n' && s[i + 1] == '\n' && s[i + 2] == '\n')
  }

  ghost predicate NoSpaceBeforePunct(s: string) {
    forall i :: 0 <= i < |s| - 1 ==> !(s[i] == ' ' && IsPunct(s[i + 1]))
  }

  /** What `_fix_whitespace` guarantees of its result. */
  ghost predicate WhitespaceFixed(s: string) {
    NoTab(s) && NoDoubleSpace(s) && NoTripleNewline(s) && NoSpaceBeforePunct(s)
  }

  /** `_remove_control_chars`: drops every control character, keeps the rest in order. */
  function RemoveControlChars(s: string): (r: string)
    ensures NoControl(r)
    ensures forall c :: c in r <==> c in s && !IsControl(c)
    ensures NoControl(s) ==> r == s
    decreases |s|
  {
    if |s| == 0 then ""
    else (if IsControl(s[0]) then "" else [s[0]]) + RemoveControlChars(s[1..])
  }

  /** Removing control characters works piecewise on a concatenation. */
  lemma {:induction false} RemoveControlCharsAppend(a: string, b: string)
    ensures RemoveControlChars(a + b) == RemoveControlChars(a) + RemoveControlChars(b)
    decreases |a|
  {
    if |a| == 0 {
      assert a + b == b;
    } else {
      var c := if IsControl(a[0]) then "" else [a[0]];
      assert (a + b)[0] == a[0];
      assert (a + b)[1..] == a[1..] + b;
      assert RemoveControlChars(a + b) == c + RemoveControlChars(a[1..] + b);
      RemoveControlCharsAppend(a[1..], b);
      AppendAssoc(c, RemoveControlChars(a[1..]), RemoveControlChars(b));
    }
  }

  /** Length of the leading run of line feeds. */
  function LeadingNewlines(s: string): (n: nat)
    ensures n <= |s|
    ensures forall i :: 0 <= i < n ==> s[i] == '\n'
    ensures n < |s| ==> s[n] != '\n'
    decreases |s|
  {
    if |s| == 0 || s[0] != '\n' then 0 else 1 + LeadingNewlines(s[1..])
  }

  /** Length of the leading run of spaces and tabs. */
  function LeadingBlanks(s: string): (n: nat)
    ensures n <= |s|
    ensures forall i :: 0 <= i < n ==> IsBlank(s[i])
    ensures n < |s| ==> !IsBlank(s[n])
    decreases |s|
  {
    if |s| == 0 || !IsBlank(s[0]) then 0 else 1 + LeadingBlanks(s[1..])
  }

  /** Prepending one character keeps a string free of three line feeds in a
      row when it does not complete such a run. */
  lemma ConsNoTripleNewline(c: char, x: string)
    requires NoTripleNewline(x)
    requires c == '\n' ==> LeadingNewlines(x) < 2
    ensures NoTripleNewline([c] + x)
  {
    var s := [c] + x;
    forall i | 0 <= i < |s| - 2
      ensures !(s[i] == '\n' && s[i + 1] == '\n' && s[i + 2] == '\n')
    {
      if i > 0 {
        assert s[i] == x[i - 1] && s[i + 1] == x[i] && s[i + 2] == x[i + 1];
      }
    }
  }

  lemma ConsNoDoubleSpace(c: char, x: string)
    requires NoDoubleSpace(x)
    requires c == ' ' && |x| > 0 ==> x[0] != ' '
    ensures NoDoubleSpace([c] + x)
  {
    var s := [c] + x;
    forall i | 0 <= i < |s| - 1
      ensures !(s[i] == ' ' && s[i + 1] == ' ')
    {
      if i > 0 {
        assert s[i] == x[i - 1] && s[i + 1] == x[i];
      }
    }
  }

  lemma ConsNoSpaceBeforePunct(c: char, x: string)
    requires NoSpaceBeforePunct(x)
    requires c == ' ' && |x| > 0 ==> !IsPunct(x[0])
    ensures NoSpaceBeforePunct([c] + x)
  {
    var s := [c] + x;
    forall i | 0 <= i < |s| - 1
      ensures !(s[i] == ' ' && IsPunct(s[i + 1]))
    {
      if i > 0 {
        assert s[i] == x[i - 1] && s[i + 1] == x[i];
      }
    }
  }

  /** `re.sub(r"\n{3,}", "\n\n", s)`: a run of three or more line feeds becomes two. */
  function CollapseNewlines(s: string): (r: string)
    ensures NoTripleNewline(r)
    ensures LeadingNewlines(r) == Min(LeadingNewlines(s), 2)
    ensures forall c :: c in r ==> c in s
    decreases |s|
  {
    if |s| == 0 then ""
    else
      var n := LeadingNewlines(s);
      if n >= 3 then
        var rest := CollapseNewlines(s[n..]);
        ConsNoTripleNewline('\n', rest);
        ConsNoTripleNewline('\n', "\n" + rest);
        assert "\n\n" + rest == ['\n'] + ("\n" + rest);
        "\n\n" + rest
      else
        var rest := CollapseNewlines(s[1..]);
        ConsNoTripleNewline(s[0], rest);
        [s[0]] + rest
  }

  /** A string already free of three line feeds in a row is left alone. */
  lemma {:induction false} CollapseNewlinesIdentity(s: string)
    requires NoTripleNewline(s)
    ensures CollapseNewlines(s) == s
    decreases |s|
  {
    if |s| > 0 {
      assert NoTripleNewline(s[1..]);
      CollapseNewlinesIdentity(s[1..]);
      assert s == [s[0]] + s[1..];
    }
  }

  /** `re.sub(r"[ \t]+", " ", s)`: a run of spaces and tabs becomes one space. */
  function CollapseBlanks(s: string): (r: string)
    ensures NoTab(r) && NoDoubleSpace(r)
    ensures |s| > 0 ==> |r| > 0 && r[0] == (if IsBlank(s[0]) then ' ' else s[0])
    ensures forall c :: c in r ==> c in s || c == ' '
    decreases |s|
  {
    if |s| == 0 then ""
    else if IsBlank(s[0]) then
      var rest := CollapseBlanks(s[LeadingBlanks(s)..]);
      ConsNoDoubleSpace(' ', rest);
      " " + rest
    else
      var rest := CollapseBlanks(s[1..]);
      ConsNoDoubleSpace(s[0], rest);
      [s[0]] + rest
  }

  /** Collapsing blanks neither creates nor removes line feeds next to line feeds. */
  lemma {:induction false} CollapseBlanksKeepsNewlines(s: string)
    ensures LeadingNewlines(CollapseBlanks(s)) == LeadingNewlines(s)
    ensures NoTripleNewline(s) ==> NoTripleNewline(CollapseBlanks(s))
    decreases |s|
  {
    if |s| > 0 {
      if IsBlank(s[0]) {
        CollapseBlanksKeepsNewlines(s[LeadingBlanks(s)..]);
        BlankRunKeepsNewlines(s);
      } else {
        CollapseBlanksKeepsNewlines(s[1..]);
        OtherCharKeepsNewlines(s);
      }
    }
  }

  /** A leading run of blanks becomes one space, which is no line feed. */
  lemma BlankRunKeepsNewlines(s: string)
    requires |s| > 0 && IsBlank(s[0])
    requires var rest := s[LeadingBlanks(s)..];
      && LeadingNewlines(CollapseBlanks(rest)) == LeadingNewlines(rest)
      && (NoTripleNewline(rest) ==> NoTripleNewline(CollapseBlanks(rest)))
    ensures LeadingNewlines(CollapseBlanks(s)) == LeadingNewlines(s)
    ensures NoTripleNewline(s) ==> NoTripleNewline(CollapseBlanks(s))
  {
    var rest := s[LeadingBlanks(s)..];
    if NoTripleNewline(s) {
      assert NoTripleNewline(rest);
      ConsNoTripleNewline(' ', CollapseBlanks(rest));
    }
  }

  /** Any other character is kept in front of the collapsed rest. */
  lemma OtherCharKeepsNewlines(s: string)
    requires |s| > 0 && !IsBlank(s[0])
    requires LeadingNewlines(CollapseBlanks(s[1..])) == LeadingNewlines(s[1..])
    requires NoTripleNewline(s[1..]) ==> NoTripleNewline(CollapseBlanks(s[1..]))
    ensures LeadingNewlines(CollapseBlanks(s)) == LeadingNewlines(s)
    ensures NoTripleNewline(s) ==> NoTripleNewline(CollapseBlanks(s))
  {
    if NoTripleNewline(s) {
      assert NoTripleNewline(s[1..]);
      ConsNoTripleNewline(s[0], CollapseBlanks(s[1..]));
    }
  }

  /** A slice keeps whatever holds of every character and of every pair or
      triple of neighbours. */
  lemma SliceKeepsFixed(f: string, i: nat, j: nat)
    requires i <= j <= |f|
    requires WhitespaceFixed(f)
    requires forall k :: 0 <= k < |f| ==> !IsSmartQuote(f[k]) && !IsDash(f[k])
    ensures WhitespaceFixed(f[i..j])
    ensures forall k :: 0 <= k < j - i ==> !IsSmartQuote(f[i..j][k]) && !IsDash(f[i..j][k])
  {
    var r := f[i..j];
    assert forall k :: 0 <= k < |r| ==> r[k] == f[i + k];
  }

  /** A string without tabs or double spaces is left alone. */
  lemma {:induction false} CollapseBlanksIdentity(s: string)
    requires NoTab(s) && NoDoubleSpace(s)
    ensures CollapseBlanks(s) == s
    decreases |s|
  {
    if |s| > 0 {
      assert NoTab(s[1..]) && NoDoubleSpace(s[1..]);
      CollapseBlanksIdentity(s[1..]);
      if IsBlank(s[0]) {
        assert LeadingBlanks(s) == 1;
      }
      assert s == [s[0]] + s[1..];
    }
  }

  /** `re.sub(r" ([.,;:!?])", r"\1", s)`: a space directly before punctuation is dropped. */
  function DropSpaceBeforePunct(s: string): (r: string)
    ensures |s| > 0 ==> |r| > 0 && r[0] == (if |s| >= 2 && s[0] == ' ' && IsPunct(s[1]) then s[1] else s[0])
    ensures forall c :: c in r ==> c in s
    decreases |s|
  {
    if |s| == 0 then ""
    else if |s| >= 2 && s[0] == ' ' && IsPunct(s[1]) then [s[1]] + DropSpaceBeforePunct(s[2..])
    else [s[0]] + DropSpaceBeforePunct(s[1..])
  }

  /** Once spaces are single, dropping those before punctuation leaves none
      there and makes no new double space. */
  lemma {:induction false} DropSpaceBeforePunctSpacing(s: string)
    requires NoDoubleSpace(s)
    ensures NoSpaceBeforePunct(DropSpaceBeforePunct(s)) && NoDoubleSpace(DropSpaceBeforePunct(s))
    decreases |s|
  {
    if |s| >= 2 && s[0] == ' ' && IsPunct(s[1]) {
      assert NoDoubleSpace(s[2..]);
      DropSpaceBeforePunctSpacing(s[2..]);
      ConsNoSpaceBeforePunct(s[1], DropSpaceBeforePunct(s[2..]));
      ConsNoDoubleSpace(s[1], DropSpaceBeforePunct(s[2..]));
    } else if |s| > 0 {
      assert NoDoubleSpace(s[1..]);
      DropSpaceBeforePunctSpacing(s[1..]);
      ConsNoSpaceBeforePunct(s[0], DropSpaceBeforePunct(s[1..]));
      ConsNoDoubleSpace(s[0], DropSpaceBeforePunct(s[1..]));
    }
  }

  /** Dropping spaces before punctuation keeps line-feed runs and the absence of tabs. */
  lemma {:induction false} DropSpaceBeforePunctKeeps(s: string)
    ensures LeadingNewlines(DropSpaceBeforePunct(s)) == LeadingNewlines(s)
    ensures NoTab(s) ==> NoTab(DropSpaceBeforePunct(s))
    ensures NoTripleNewline(s) ==> NoTripleNewline(DropSpaceBeforePunct(s))
    decreases |s|
  {
    if |s| >= 2 && s[0] == ' ' && IsPunct(s[1]) {
      DropSpaceBeforePunctKeeps(s[2..]);
      DroppedSpaceKeeps(s);
    } else if |s| > 0 {
      DropSpaceBeforePunctKeeps(s[1..]);
      KeptCharKeeps(s);
    }
  }

  /** Line-feed runs, tabs and triple line feeds carry over from `s` to `r`. */
  ghost predicate LayoutKept(s: string, r: string) {
    && LeadingNewlines(r) == LeadingNewlines(s)
    && (NoTab(s) ==> NoTab(r))
    && (NoTripleNewline(s) ==> NoTripleNewline(r))
  }

  /** A space before punctuation is dropped; the punctuation is no line feed. */
  lemma DroppedSpaceKeeps(s: string)
    requires |s| >= 2 && s[0] == ' ' && IsPunct(s[1])
    requires LayoutKept(s[2..], DropSpaceBeforePunct(s[2..]))
    ensures LayoutKept(s, DropSpaceBeforePunct(s))
  {
    if NoTripleNewline(s) {
      assert NoTripleNewline(s[2..]);
      ConsNoTripleNewline(s[1], DropSpaceBeforePunct(s[2..]));
    }
    if NoTab(s) {
      assert NoTab(s[2..]);
    }
  }

  /** Any other character is kept in front of the rest. */
  lemma KeptCharKeeps(s: string)
    requires |s| > 0 && !(|s| >= 2 && s[0] == ' ' && IsPunct(s[1]))
    requires LayoutKept(s[1..], DropSpaceBeforePunct(s[1..]))
    ensures LayoutKept(s, DropSpaceBeforePunct(s))
  {
    var x := DropSpaceBeforePunct(s[1..]);
    assert DropSpaceBeforePunct(s) == [s[0]] + x;
    LeadingNewlinesCons(s[0], x);
    if NoTripleNewline(s) {
      KeptHeadNoTriple(s, x);
    }
    if NoTab(s) {
      KeptHeadNoTab(s, x);
    }
  }

  /** The first character in front of a rest that kept the line-feed layout. */
  lemma KeptHeadNoTriple(s: string, x: string)
    requires |s| > 0 && NoTripleNewline(s)
    requires NoTripleNewline(s[1..]) ==> NoTripleNewline(x)
    requires LeadingNewlines(x) == LeadingNewlines(s[1..])
    ensures NoTripleNewline([s[0]] + x)
  {
    assert NoTripleNewline(s[1..]);
    if s[0] == '\n' {
      NewlineThenFewer(s);
    }
    ConsNoTripleNewline(s[0], x);
  }

  lemma KeptHeadNoTab(s: string, x: string)
    requires |s| > 0 && NoTab(s)
    requires NoTab(s[1..]) ==> NoTab(x)
    ensures NoTab([s[0]] + x)
  {
    assert NoTab(s[1..]);
    assert s[0] != '\t';
    assert forall i :: 0 < i < |x| + 1 ==> ([s[0]] + x)[i] == x[i - 1];
  }

  lemma LeadingNewlinesCons(c: char, x: string)
    ensures LeadingNewlines([c] + x) == if c == '\n' then 1 + LeadingNewlines(x) else 0
  {
    assert ([c] + x)[1..] == x;
  }

  /** Without three line feeds in a row, a line feed is followed by at most one more. */
  lemma NewlineThenFewer(s: string)
    requires |s| > 0 && s[0] == '\n' && NoTripleNewline(s)
    ensures LeadingNewlines(s[1..]) < 2
  {
    if |s| >= 3 {
      assert !(s[1] == '\n' && s[2] == '\n');
    }
  }

  /** A string with no space before punctuation is left alone. */
  lemma {:induction false} DropSpaceBeforePunctIdentity(s: string)
    requires NoSpaceBeforePunct(s)
    ensures DropSpaceBeforePunct(s) == s
    decreases |s|
  {
    if |s| > 0 {
      assert NoSpaceBeforePunct(s[1..]);
      DropSpaceBeforePunctIdentity(s[1..]);
      assert s == [s[0]] + s[1..];
    }
  }

  /** `_fix_whitespace`: the three substitutions in the source's order. */
  function FixWhitespace(s: string): (r: string)
    ensures WhitespaceFixed(r)
    ensures WhitespaceFixed(s) ==> r == s
    ensures forall c :: c in r ==> c in s || c == ' '
    ensures NoControl(s) ==> NoControl(r)
  {
    var a := CollapseNewlines(s);
    var b := CollapseBlanks(a);
    CollapseBlanksKeepsNewlines(a);
    DropSpaceBeforePunctSpacing(b);
    DropSpaceBeforePunctKeeps(b);
    FixedInputUnchanged(s);
    DropSpaceBeforePunct(b)
  }

  /** Each of the three substitutions leaves already-fixed text alone. */
  lemma FixedInputUnchanged(s: string)
    ensures WhitespaceFixed(s) ==>
              DropSpaceBeforePunct(CollapseBlanks(CollapseNewlines(s))) == s
  {
    if WhitespaceFixed(s) {
      CollapseNewlinesIdentity(s);
      CollapseBlanksIdentity(s);
      DropSpaceBeforePunctIdentity(s);
    }
  }

  /** Fixing whitespace a second time changes nothing. */
  lemma FixWhitespaceIdempotent(s: string)
    ensures FixWhitespace(FixWhitespace(s)) == FixWhitespace(s)
  {
  }

  /** Control-character removal followed by whitespace fixing leaves none of
      the removed characters, no tab, no double space, no run of three line
      feeds and no space before punctuation; line feeds and carriage returns
      survive. */
  lemma CleanupGuarantees(s: string)
    ensures var r := FixWhitespace(RemoveControlChars(s));
      NoControl(r) && WhitespaceFixed(r)
    ensures '\n' in s ==> '\n' in RemoveControlChars(s)
    ensures '\r' in s ==> '\r' in RemoveControlChars(s)
  {
  }

  /** `[“”„]` to `"` and `[‘’‚]` to `'`. */
  function StraightenQuote(c: char): char {
    if c == '\U{201c}' || c == '\U{201d}' || c == '\U{201e}' then '"'
    else if c == '\U{2018}' || c == '\U{2019}' || c == '\U{201a}' then '\''
    else c
  }

  predicate IsSmartQuote(c: char) {
    c == '\U{201c}' || c == '\U{201d}' || c == '\U{201e}' ||
    c == '\U{2018}' || c == '\U{2019}' || c == '\U{201a}'
  }

  /** En dash or em dash. */
  predicate IsDash(c: char) {
    c == '\U{2013}' || c == '\U{2014}'
  }

  function StraightenQuotes(s: string): (r: string)
    ensures |r| == |s|
    ensures forall i :: 0 <= i < |s| ==> !IsSmartQuote(r[i])
    ensures forall i :: 0 <= i < |s| && !IsSmartQuote(s[i]) ==> r[i] == s[i]
    ensures forall i :: 0 <= i < |s| && s[i] in {'\U{201c}', '\U{201d}', '\U{201e}'} ==> r[i] == '"'
    ensures forall i :: 0 <= i < |s| && s[i] in {'\U{2018}', '\U{2019}', '\U{201a}'} ==> r[i] == '\''
  {
    seq(|s|, i requires 0 <= i < |s| => StraightenQuote(s[i]))
  }

  /** Length of the match of `\s*[–—]\s*` at the start of `s`: the
      leading whitespace, one en or em dash and the whitespace after it; 0
      when `s` does not start that way. */
  function DashMatch(s: string): (n: nat)
    ensures n <= |s|
    ensures n > 0 ==> exists w :: 0 <= w < n && IsDash(s[w])
  {
    var w := StripStart(s);
    if w < |s| && IsDash(s[w]) then w + 1 + StripStart(s[w + 1..]) else 0
  }

  /** `re.sub(r"\s*[–—]\s*", " - ", s)`: a dash together with the
      whitespace on both sides of it becomes " - ". Every character of the
      result comes from the input and is no dash, or is part of a " - ". */
  function ReplaceDashes(s: string): (r: string)
    ensures forall c :: c in r ==> (c in s && !IsDash(c)) || c == ' ' || c == '-'
    decreases |s|
  {
    if |s| == 0 then ""
    else
      var n := DashMatch(s);
      if n > 0 then
        var rest := s[n..];
        assert forall c :: c in rest ==> c in s;
        " - " + ReplaceDashes(rest)
      else
        assert forall c :: c in s[1..] ==> c in s;
        [s[0]] + ReplaceDashes(s[1..])
  }

  /** Text without a dash is left as it is. */
  lemma {:induction false} ReplaceDashesIdentity(s: string)
    requires forall i :: 0 <= i < |s| ==> !IsDash(s[i])
    ensures ReplaceDashes(s) == s
    decreases |s|
  {
    if |s| > 0 {
      assert DashMatch(s) == 0;
      ReplaceDashesIdentity(s[1..]);
      DropCons(s, 0);
    }
  }

  /** Index of the first en or em dash in `s`, or `|s|`. */
  function FirstDash(s: string): (i: nat)
    ensures i <= |s|
    ensures forall k :: 0 <= k < i ==> !IsDash(s[k])
    ensures i < |s| ==> IsDash(s[i])
    decreases |s|
  {
    if |s| == 0 || IsDash(s[0]) then 0 else 1 + FirstDash(s[1..])
  }

  /** `s` with every dash written as " - " and the whitespace on both sides
      of it dropped: the text before the first dash loses its trailing
      whitespace, the text after it its leading whitespace. */
  function SpacedDashes(s: string): string
    decreases |s|
  {
    var i := FirstDash(s);
    if i == |s| then s
    else
      var before := s[..i];
      var after := s[i + 1..];
      before[..StripEnd(before)] + " - " + SpacedDashes(after[StripStart(after)..])
  }

  lemma ReplaceDashesCopy(s: string, j: nat)
    requires j < |s| && DashMatch(s[j..]) == 0
    ensures ReplaceDashes(s[j..]) == [s[j]] + ReplaceDashes(s[j + 1..])
  {
    var u := s[j..];
    assert u[1..] == s[j + 1..];
    ReplaceDashesCopyHead(u);
  }

  lemma ReplaceDashesCopyHead(u: string)
    requires |u| > 0 && DashMatch(u) == 0
    ensures ReplaceDashes(u) == [u[0]] + ReplaceDashes(u[1..])
  {
  }

  lemma ReplaceDashesAtMatch(u: string)
    requires DashMatch(u) > 0
    ensures ReplaceDashes(u) == " - " + ReplaceDashes(u[DashMatch(u)..])
  {
  }

  /** The leading whitespace of `u` is its first `m` characters. */
  lemma StripStartIs(u: string, m: nat)
    requires m <= |u|
    requires forall k :: 0 <= k < m ==> IsSpace(u[k])
    requires m < |u| ==> !IsSpace(u[m])
    ensures StripStart(u) == m
  {
  }

  lemma DashNotSpace(c: char)
    requires IsDash(c)
    ensures !IsSpace(c)
  {
  }

  /** Before the whitespace that precedes the first dash, no dash match
      starts: a non-whitespace character that is no dash comes first. */
  lemma NoDashMatchBefore(s: string, i: nat, j: nat)
    requires i == FirstDash(s) < |s|
    requires j < StripEnd(s[..i])
    ensures DashMatch(s[j..]) == 0
  {
    var e := StripEnd(s[..i]);
    var u := s[j..];
    var w := StripStart(u);
    assert s[..i][e - 1] == s[e - 1] == u[e - 1 - j];
    assert w <= e - 1 - j;
    assert u[w] == s[j + w];
  }

  /** At the whitespace before the first dash the match takes that
      whitespace, the dash and the whitespace after it. */
  lemma DashMatchAtFirst(s: string, i: nat) returns (n: nat)
    requires i == FirstDash(s) < |s|
    ensures var e := StripEnd(s[..i]);
            var after := s[i + 1..];
            n == DashMatch(s[e..]) && n > 0 && s[e..][n..] == after[StripStart(after)..]
  {
    var e := StripEnd(s[..i]);
    var u := s[e..];
    var after := s[i + 1..];
    SpacesBeforeFirstDash(s, i);
    DashNotSpace(s[i]);
    StripStartIs(u, i - e);
    assert u[i - e + 1..] == after;
    n := DashMatch(u);
  }

  /** From the end of the text before the first dash, whitespace runs up
      to that dash. */
  lemma SpacesBeforeFirstDash(s: string, i: nat)
    requires i == FirstDash(s) < |s|
    ensures var e := StripEnd(s[..i]);
            e <= i && forall k :: 0 <= k < i - e ==> IsSpace(s[e..][k])
    ensures s[StripEnd(s[..i])..][i - StripEnd(s[..i])] == s[i]
  {
    var e := StripEnd(s[..i]);
    forall k | 0 <= k < i - e
      ensures IsSpace(s[e..][k])
    {
      assert s[e..][k] == s[..i][e + k];
    }
  }

  /** Up to the whitespace before the first dash the scan copies the text. */
  lemma ReplaceDashesBeforeFirst(s: string, i: nat)
    requires i == FirstDash(s) < |s|
    ensures var e := StripEnd(s[..i]);
            ReplaceDashes(s) == s[..i][..e] + ReplaceDashes(s[e..])
  {
    ReplaceDashesCopies(s, i, 0);
    PrefixOfPrefix(s, i, StripEnd(s[..i]));
  }

  lemma PrefixOfPrefix(s: string, i: nat, e: nat)
    requires e <= i <= |s|
    ensures s[..i][..e] == s[0..e] && s[0..] == s
  {
  }

  lemma {:induction false} ReplaceDashesCopies(s: string, i: nat, p: nat)
    requires i == FirstDash(s) < |s|
    requires p <= StripEnd(s[..i])
    ensures var e := StripEnd(s[..i]);
            ReplaceDashes(s[p..]) == s[p..e] + ReplaceDashes(s[e..])
    decreases i - p
  {
    var e := StripEnd(s[..i]);
    if p < e {
      NoDashMatchBefore(s, i, p);
      ReplaceDashesCopy(s, p);
      ReplaceDashesCopies(s, i, p + 1);
      SliceCons(s, p, e);
      AppendAssoc([s[p]], s[p + 1..e], ReplaceDashes(s[e..]));
    }
  }

  /** From there on, the whitespace, the dash and the whitespace after it
      become " - ". */
  lemma ReplaceDashesFromFirst(s: string, i: nat)
    requires i == FirstDash(s) < |s|
    ensures var after := s[i + 1..];
            ReplaceDashes(s[StripEnd(s[..i])..]) == " - " + ReplaceDashes(after[StripStart(after)..])
  {
    var n := DashMatchAtFirst(s, i);
    ReplaceDashesAtMatch(s[StripEnd(s[..i])..]);
  }

  lemma SpacedDashesAtFirst(s: string, i: nat)
    requires i == FirstDash(s) < |s|
    ensures var after := s[i + 1..];
            SpacedDashes(s) == s[..i][..StripEnd(s[..i])] + " - " + SpacedDashes(after[StripStart(after)..])
  {
  }

  /** The scan of `re.sub(r"\s*[–—]\s*", " - ", s)` gives `SpacedDashes`. */
  lemma {:induction false} ReplaceDashesSpaced(s: string)
    ensures ReplaceDashes(s) == SpacedDashes(s)
    decreases |s|
  {
    var i := FirstDash(s);
    if i == |s| {
      ReplaceDashesIdentity(s);
    } else {
      var after := s[i + 1..];
      var rest := after[StripStart(after)..];
      var kept := s[..i][..StripEnd(s[..i])];
      ReplaceDashesBeforeFirst(s, i);
      ReplaceDashesFromFirst(s, i);
      SpacedDashesAtFirst(s, i);
      ReplaceDashesSpaced(rest);
      AppendAssoc(kept, " - ", SpacedDashes(rest));
    }
  }

  lemma SpacedDashesSample(s: string)
    requires s == "a \U{2013} b"
    ensures ReplaceDashes(s) == "a - b"
  {
    SampleFirstDash();
    SampleSides();
    SpacedDashesAtFirst(s, 2);
    var kept, rest := s[..2][..StripEnd(s[..2])], s[3..][StripStart(s[3..])..];
    assert SpacedDashes(s) == kept + " - " + SpacedDashes(rest);
    assert kept + " - " + SpacedDashes(rest) == "a" + " - " + "b" == "a - b";
    ReplaceDashesSpaced(s);
  }

  lemma SampleFirstDash()
    ensures FirstDash("a \U{2013} b") == 2
  {
    var s := "a \U{2013} b";
    assert FirstDash(s[2..]) == 0;
    assert s[1..][1..] == s[2..];
  }

  lemma SampleSides()
    ensures var s := "a \U{2013} b";
            s[..2][..StripEnd(s[..2])] == "a" && s[3..][StripStart(s[3..])..] == "b"
    ensures SpacedDashes("b") == "b"
  {
    var s := "a \U{2013} b";
    var before, after := "a ", " b";
    assert s[..2] == before && s[3..] == after;
    assert StripEnd(before) == 1 by {
      assert before[..1] == "a";
    }
    assert StripStart(after) == 1 && after[1..] == "b";
  }

  /** `_normalize_punctuation`: smart quotes straightened, then every dash
      with the whitespace around it written as " - ". */
  function NormalizePunctuation(s: string): (r: string)
    ensures forall i :: 0 <= i < |r| ==> !IsSmartQuote(r[i]) && !IsDash(r[i])
    ensures (forall i :: 0 <= i < |s| ==> !IsSmartQuote(s[i]) && !IsDash(s[i])) ==> r == s
    ensures NoControl(s) ==> NoControl(r)
    ensures r == SpacedDashes(StraightenQuotes(s))
  {
    ReplaceDashesSpaced(StraightenQuotes(s));
    PlainPunctuationUnchanged(s);
    DashesReplacedChars(StraightenQuotes(s));
    QuotesKeepNoControl(s);
    ReplaceDashes(StraightenQuotes(s))
  }

  /** After both replacements no smart quote and no dash is left. */
  lemma DashesReplacedChars(q: string)
    requires forall i :: 0 <= i < |q| ==> !IsSmartQuote(q[i])
    ensures var r := ReplaceDashes(q);
      forall i :: 0 <= i < |r| ==> !IsSmartQuote(r[i]) && !IsDash(r[i])
    ensures NoControl(q) ==> NoControl(ReplaceDashes(q))
  {
    var r := ReplaceDashes(q);
    forall i | 0 <= i < |r|
      ensures !IsSmartQuote(r[i]) && !IsDash(r[i])
    {
      assert r[i] in r;
      if r[i] in q {
        var k :| 0 <= k < |q| && q[k] == r[i];
      }
    }
  }

  lemma QuotesKeepNoControl(s: string)
    ensures NoControl(s) ==> NoControl(StraightenQuotes(s))
  {
    if NoControl(s) {
      var q := StraightenQuotes(s);
      forall c | c in q
        ensures !IsControl(c)
      {
        var k :| 0 <= k < |q| && q[k] == c;
        assert s[k] in s;
      }
    }
  }

  lemma PlainPunctuationUnchanged(s: string)
    ensures (forall i :: 0 <= i < |s| ==> !IsSmartQuote(s[i]) && !IsDash(s[i])) ==>
              ReplaceDashes(StraightenQuotes(s)) == s
  {
    if forall i :: 0 <= i < |s| ==> !IsSmartQuote(s[i]) && !IsDash(s[i]) {
      assert StraightenQuotes(s) == s;
      ReplaceDashesIdentity(s);
    }
  }
}
