/**
  What the cleanup stages of core/text_preprocessor.py keep: fixing
  whitespace only moves, merges and drops layout characters, and normalising
  punctuation, seen without its whitespace, is a character-by-character
  translation of quotes and dashes.
 */
module CleanupContent {
  import opened Text
  import opened Cleanup

  /** The characters `_fix_whitespace` rewrites: space, tab and line feed. */
  predicate IsLayout(c: char) {
    c == ' ' || c == '\t' || c == '\n'
  }

  /** `s` without its layout characters. */
  function Visible(s: string): (r: string)
    ensures |r| <= |s|
    ensures forall i :: 0 <= i < |r| ==> !IsLayout(r[i])
    decreases |s|
  {
    if |s| == 0 then ""
    else (if IsLayout(s[0]) then "" else [s[0]]) + Visible(s[1..])
  }

  lemma VisibleCons(c: char, x: string)
    ensures Visible([c] + x) == (if IsLayout(c) then "" else [c]) + Visible(x)
  {
    assert ([c] + x)[0] == c && ([c] + x)[1..] == x;
  }

  /** Removing layout works piecewise on a concatenation. */
  lemma {:induction false} VisibleAppend(a: string, b: string)
    ensures Visible(a + b) == Visible(a) + Visible(b)
    decreases |a|
  {
    if |a| == 0 {
      assert a + b == b;
    } else {
      var c := if IsLayout(a[0]) then "" else [a[0]];
      assert (a + b)[0] == a[0];
      assert (a + b)[1..] == a[1..] + b;
      assert Visible(a + b) == c + Visible(a[1..] + b);
      VisibleAppend(a[1..], b);
      AppendAssoc(c, Visible(a[1..]), Visible(b));
    }
  }

  /** Layout alone has no visible characters. */
  lemma {:induction false} VisibleLayout(t: string)
    requires forall i :: 0 <= i < |t| ==> IsLayout(t[i])
    ensures Visible(t) == ""
    decreases |t|
  {
    if |t| > 0 {
      VisibleLayout(t[1..]);
    }
  }

  /** A leading run of layout characters can be dropped without changing
      what is visible. */
  lemma DropLayoutPrefix(s: string, n: nat)
    requires n <= |s|
    requires forall i :: 0 <= i < n ==> IsLayout(s[i])
    ensures Visible(s) == Visible(s[n..])
  {
    assert s == s[..n] + s[n..];
    VisibleAppend(s[..n], s[n..]);
    VisibleLayout(s[..n]);
  }

  /** Collapsing runs of line feeds keeps every other character, in order. */
  lemma {:induction false} CollapseNewlinesVisible(s: string)
    ensures Visible(CollapseNewlines(s)) == Visible(s)
    decreases |s|
  {
    if |s| > 0 {
      var n := LeadingNewlines(s);
      if n >= 3 {
        var rest := CollapseNewlines(s[n..]);
        assert CollapseNewlines(s) == "\n\n" + rest;
        VisibleAppend("\n\n", rest);
        VisibleLayout("\n\n");
        CollapseNewlinesVisible(s[n..]);
        DropLayoutPrefix(s, n);
      } else {
        assert CollapseNewlines(s) == [s[0]] + CollapseNewlines(s[1..]);
        VisibleCons(s[0], CollapseNewlines(s[1..]));
        CollapseNewlinesVisible(s[1..]);
        VisibleCons(s[0], s[1..]);
        HeadTail(s);
      }
    }
  }

  /** Collapsing runs of spaces and tabs keeps every other character, in order. */
  lemma {:induction false} CollapseBlanksVisible(s: string)
    ensures Visible(CollapseBlanks(s)) == Visible(s)
    decreases |s|
  {
    if |s| > 0 {
      if IsBlank(s[0]) {
        var n := LeadingBlanks(s);
        var rest := CollapseBlanks(s[n..]);
        assert CollapseBlanks(s) == " " + rest;
        VisibleCons(' ', rest);
        CollapseBlanksVisible(s[n..]);
        DropLayoutPrefix(s, n);
      } else {
        assert CollapseBlanks(s) == [s[0]] + CollapseBlanks(s[1..]);
        VisibleCons(s[0], CollapseBlanks(s[1..]));
        CollapseBlanksVisible(s[1..]);
        VisibleCons(s[0], s[1..]);
        HeadTail(s);
      }
    }
  }

  /** Dropping spaces before punctuation keeps every other character, in order. */
  lemma {:induction false} DropSpaceBeforePunctVisible(s: string)
    ensures Visible(DropSpaceBeforePunct(s)) == Visible(s)
    decreases |s|
  {
    if |s| > 0 {
      if |s| >= 2 && s[0] == ' ' && IsPunct(s[1]) {
        var rest := DropSpaceBeforePunct(s[2..]);
        assert DropSpaceBeforePunct(s) == [s[1]] + rest;
        VisibleCons(s[1], rest);
        DropSpaceBeforePunctVisible(s[2..]);
        DropLayoutPrefix(s, 1);
        VisibleCons(s[1], s[2..]);
        assert s[1..] == [s[1]] + s[2..];
      } else {
        assert DropSpaceBeforePunct(s) == [s[0]] + DropSpaceBeforePunct(s[1..]);
        VisibleCons(s[0], DropSpaceBeforePunct(s[1..]));
        DropSpaceBeforePunctVisible(s[1..]);
        VisibleCons(s[0], s[1..]);
        HeadTail(s);
      }
    }
  }

  /** `_fix_whitespace` changes only spaces, tabs and line feeds: every other
      character is kept, in order. */
  lemma FixWhitespaceVisible(s: string)
    ensures Visible(FixWhitespace(s)) == Visible(s)
  {
    var a := CollapseNewlines(s);
    CollapseNewlinesVisible(s);
    CollapseBlanksVisible(a);
    DropSpaceBeforePunctVisible(CollapseBlanks(a));
  }

  /** `s` with each en or em dash written as '-'. */
  function Hyphenated(s: string): string {
    seq(|s|, i requires 0 <= i < |s| => if IsDash(s[i]) then '-' else s[i])
  }

  lemma HyphenatedAppend(a: string, b: string)
    ensures Hyphenated(a + b) == Hyphenated(a) + Hyphenated(b)
  {
  }

  /** `t` is whitespace only. */
  predicate AllSpace(t: string) {
    forall i :: 0 <= i < |t| ==> IsSpace(t[i])
  }

  /** Whitespace contains no dash, so it stays whitespace. */
  lemma HyphenatedSpaces(t: string)
    requires AllSpace(t)
    ensures Squeeze(Hyphenated(t)) == ""
  {
    assert Hyphenated(t) == t;
    SqueezeAllSpace(t);
  }

  lemma SqueezeSpacedHyphen(x: string)
    ensures Squeeze(" - " + x) == "-" + Squeeze(x)
  {
    assert " - " + x == [' '] + ([ '-'] + ([' '] + x));
    SqueezeAppend([' '], [ '-'] + ([' '] + x));
    SqueezeAppend(['-'], [' '] + x);
    SqueezeAppend([' '], x);
  }

  lemma SqueezeHyphenatedAppend(a: string, b: string)
    ensures Squeeze(Hyphenated(a + b)) == Squeeze(Hyphenated(a)) + Squeeze(Hyphenated(b))
  {
    HyphenatedAppend(a, b);
    SqueezeAppend(Hyphenated(a), Hyphenated(b));
  }

  /** The pieces of a dash match: leading whitespace, the dash at `w`, and
      the whitespace after it up to the end of the match. */
  lemma DashMatchParts(q: string) returns (w: nat)
    requires DashMatch(q) > 0
    ensures w < DashMatch(q) && IsDash(q[w])
    ensures AllSpace(q[..w]) && AllSpace(q[w + 1..DashMatch(q)])
  {
    w := StripStart(q);
    var tail := q[w + 1..];
    var w' := StripStart(tail);
    assert q[w + 1..DashMatch(q)] == tail[..w'];
  }

  /** A dash with the whitespace around it, seen without whitespace, is a
      single '-'. */
  lemma DashRun(q: string, w: nat, n: nat)
    requires w < n <= |q| && IsDash(q[w])
    requires AllSpace(q[..w]) && AllSpace(q[w + 1..n])
    ensures Squeeze(Hyphenated(q)) == "-" + Squeeze(Hyphenated(q[n..]))
  {
    assert q == q[..w] + ([q[w]] + (q[w + 1..n] + q[n..]));
    SqueezeHyphenatedAppend(q[..w], [q[w]] + (q[w + 1..n] + q[n..]));
    HyphenatedSpaces(q[..w]);
    DashHead(q[w], q[w + 1..n] + q[n..]);
    SqueezeHyphenatedAppend(q[w + 1..n], q[n..]);
    HyphenatedSpaces(q[w + 1..n]);
  }

  lemma DashHead(d: char, tail: string)
    requires IsDash(d)
    ensures Squeeze(Hyphenated([d] + tail)) == "-" + Squeeze(Hyphenated(tail))
  {
    SqueezeHyphenatedAppend([d], tail);
    assert Hyphenated([d]) == "-";
    assert Squeeze("-") == "-";
  }

  /** Up to whitespace, replacing dashes with " - " is writing each dash as '-'. */
  lemma {:induction false} ReplaceDashesSqueeze(q: string)
    ensures Squeeze(ReplaceDashes(q)) == Squeeze(Hyphenated(q))
    decreases |q|
  {
    if |q| > 0 {
      var n := DashMatch(q);
      if n > 0 {
        assert ReplaceDashes(q) == " - " + ReplaceDashes(q[n..]);
        ReplaceDashesSqueeze(q[n..]);
        SqueezeSpacedHyphen(ReplaceDashes(q[n..]));
        var w := DashMatchParts(q);
        DashRun(q, w, n);
      } else {
        NoDashAtStart(q);
        assert ReplaceDashes(q) == [q[0]] + ReplaceDashes(q[1..]);
        ReplaceDashesSqueeze(q[1..]);
        KeptHead(q[0], ReplaceDashes(q[1..]), q[1..]);
        HeadTail(q);
      }
    }
  }

  /** Where no dash match starts, the first character is no dash. */
  lemma NoDashAtStart(q: string)
    requires |q| > 0 && DashMatch(q) == 0
    ensures !IsDash(q[0])
  {
  }

  lemma KeptHead(c: char, x: string, y: string)
    requires !IsDash(c) && Squeeze(x) == Squeeze(Hyphenated(y))
    ensures Squeeze([c] + x) == Squeeze(Hyphenated([c] + y))
  {
    SqueezeAppend([c], x);
    SqueezeHyphenatedAppend([c], y);
    assert Hyphenated([c]) == [c];
  }

  /** `_normalize_punctuation`, seen without whitespace, straightens every
      smart quote and writes every en or em dash as '-'; all other
      characters are kept, in order. */
  lemma NormalizePunctuationSqueeze(s: string)
    ensures Squeeze(NormalizePunctuation(s)) == Squeeze(Hyphenated(StraightenQuotes(s)))
  {
    ReplaceDashesSqueeze(StraightenQuotes(s));
  }

  /** `y` starts with a character that is not whitespace. */
  predicate StartsWord(y: string) {
    |y| > 0 && !IsSpace(y[0])
  }

  /** Leading whitespace does not change the words. */
  lemma {:induction false} SplitSpacePrefix(s: string, n: nat)
    requires n <= |s|
    requires forall i :: 0 <= i < n ==> IsSpace(s[i])
    ensures Split(s) == Split(s[n..])
    decreases n
  {
    if n > 0 {
      assert Split(s) == Split(s[1..]);
      SplitSpacePrefix(s[1..], n - 1);
      assert s[1..][n - 1..] == s[n..];
    }
  }

  /** A character in front of a word joins that word. */
  lemma SplitJoinsWord(c: char, y: string)
    requires !IsSpace(c) && StartsWord(y)
    ensures |Split(y)| > 0 && Split([c] + y) == [[c] + Split(y)[0]] + Split(y)[1..]
  {
    var n := TokenLength(y);
    var s := [c] + y;
    assert TokenLength(s) == 1 + n by {
      assert s[1..] == y;
    }
    assert s[..1 + n] == [c] + y[..n];
    assert s[1 + n..] == y[n..];
  }

  /** The words of `[c] + y` depend only on the words of `y` and on whether
      `y` starts with a word. */
  lemma SplitCons(c: char, y: string, z: string)
    requires Split(y) == Split(z) && (StartsWord(y) <==> StartsWord(z))
    ensures Split([c] + y) == Split([c] + z)
  {
    if IsSpace(c) {
      assert ([c] + y)[1..] == y && ([c] + z)[1..] == z;
    } else if StartsWord(y) {
      SplitJoinsWord(c, y);
      SplitJoinsWord(c, z);
    } else {
      SplitToken([c], y);
      SplitToken([c], z);
    }
  }

  /** Collapsing runs of line feeds keeps the words of `str.split()`. */
  lemma {:induction false} CollapseNewlinesWords(s: string)
    ensures Split(CollapseNewlines(s)) == Split(s)
    ensures StartsWord(CollapseNewlines(s)) <==> StartsWord(s)
    decreases |s|
  {
    if |s| > 0 {
      var n := LeadingNewlines(s);
      if n >= 3 {
        var rest := CollapseNewlines(s[n..]);
        assert CollapseNewlines(s) == "\n\n" + rest;
        CollapseNewlinesWords(s[n..]);
        SplitSpacePrefix("\n\n" + rest, 2);
        assert ("\n\n" + rest)[2..] == rest;
        SplitSpacePrefix(s, n);
      } else {
        var rest := CollapseNewlines(s[1..]);
        assert CollapseNewlines(s) == [s[0]] + rest;
        CollapseNewlinesWords(s[1..]);
        SplitCons(s[0], rest, s[1..]);
        HeadTail(s);
      }
    }
  }

  /** Collapsing runs of spaces and tabs keeps the words of `str.split()`. */
  lemma {:induction false} CollapseBlanksWords(s: string)
    ensures Split(CollapseBlanks(s)) == Split(s)
    decreases |s|
  {
    if |s| > 0 {
      if IsBlank(s[0]) {
        var n := LeadingBlanks(s);
        var rest := CollapseBlanks(s[n..]);
        assert CollapseBlanks(s) == " " + rest;
        SplitAfterSpace(rest);
        CollapseBlanksWords(s[n..]);
        SplitSpacePrefix(s, n);
      } else {
        var rest := CollapseBlanks(s[1..]);
        assert CollapseBlanks(s) == [s[0]] + rest;
        CollapseBlanksWords(s[1..]);
        SplitCons(s[0], rest, s[1..]);
        HeadTail(s);
      }
    }
  }

  /** `s` with every space that directly precedes a punctuation mark left
      out, decided character by character. */
  function DropMarked(s: string): string
    decreases |s|
  {
    if |s| == 0 then ""
    else (if s[0] == ' ' && |s| >= 2 && IsPunct(s[1]) then "" else [s[0]]) + DropMarked(s[1..])
  }

  /** The scan of `re.sub(r" ([.,;:!?])", r"\1", s)`, which consumes the mark
      with the space, drops exactly the spaces that precede a mark. */
  lemma {:induction false} DropSpaceBeforePunctMarked(s: string)
    ensures DropSpaceBeforePunct(s) == DropMarked(s)
    decreases |s|
  {
    if |s| >= 2 && s[0] == ' ' && IsPunct(s[1]) {
      DropSpaceBeforePunctMarked(s[2..]);
      assert DropMarked(s) == DropMarked(s[1..]);
      assert s[1..][1..] == s[2..];
      assert DropMarked(s[1..]) == [s[1]] + DropMarked(s[2..]);
    } else if |s| > 0 {
      DropSpaceBeforePunctMarked(s[1..]);
    }
  }

  /** `_fix_whitespace` gives a text with the same words as its input, in
      which the only spaces missing are those directly before a
      punctuation mark. */
  lemma FixWhitespaceWords(s: string)
    ensures exists t :: Split(t) == Split(s) && FixWhitespace(s) == DropMarked(t)
  {
    var t := CollapseBlanks(CollapseNewlines(s));
    CollapseNewlinesWords(s);
    CollapseBlanksWords(CollapseNewlines(s));
    DropSpaceBeforePunctMarked(t);
  }

  lemma FixWhitespaceSample()
    ensures FixWhitespace("a  b") == "a b"
  {
    var s := "a  b";
    assert NoTripleNewline(s);
    CollapseNewlinesIdentity(s);
    SampleBlanks();
    assert NoSpaceBeforePunct("a b");
    DropSpaceBeforePunctIdentity("a b");
  }

  lemma SampleBlanks()
    ensures CollapseBlanks("a  b") == "a b"
  {
    var s := "a  b";
    assert s[1..] == "  b" && "  b"[1..] == " b" && " b"[1..] == "b";
    assert LeadingBlanks("  b") == 2;
    assert "  b"[2..] == "b";
    assert CollapseBlanks("b") == "b";
    assert CollapseBlanks(s[1..]) == " b";
  }
}
