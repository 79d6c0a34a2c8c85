/**
  Character classes and the small string utilities of Python's `str` and `re`
  that the preprocessing stages rely on: `\d`, `\w`, `\s`, `\b`, `str.lower`,
  `int`, zero-padded formatting, `str.split`, `str.join`, `str.strip` and
  `str.replace`.
 */
module Text {

  import opened Wrappers

  /** The result of a rewriting stage: the new text and the hint it reports. */
  datatype Rewritten = Rewritten(text: string, hint: Option<string>)

  function Min(x: nat, y: nat): nat {
    if x < y then x else y
  }

  /** `\d`: an ASCII decimal digit. */
  predicate IsDigit(c: char) {
    '0' <= c <= '9'
  }

  /** `\w`: an ASCII letter, digit or underscore. */
  predicate IsWordChar(c: char) {
    'a' <= c <= 'z' || 'A' <= c <= 'Z' || IsDigit(c) || c == '_'
  }

  /** `\s`, and the separators of `str.split()` / `str.strip()`: the characters
      Python's `str.isspace` accepts. */
  predicate IsSpace(c: char) {
    || '\t' <= c <= '\r'
    || '\U{1c}' <= c <= ' '
    || c == '\U{85}' || c == '\U{a0}' || c == '\U{1680}'
    || '\U{2000}' <= c <= '\U{200a}'
    || c == '\U{2028}' || c == '\U{2029}' || c == '\U{202f}' || c == '\U{205f}' || c == '\U{3000}'
  }

  /** `\b` at position `k` of `s`: exactly one of the neighbouring characters is a word character. */
  predicate WordBoundary(s: string, k: nat)
    requires k <= |s|
  {
    (k > 0 && IsWordChar(s[k - 1])) != (k < |s| && IsWordChar(s[k]))
  }

  predicate AllDigits(s: string) {
    forall i :: 0 <= i < |s| ==> IsDigit(s[i])
  }

  predicate StartsWith(s: string, prefix: string) {
    |prefix| <= |s| && s[..|prefix|] == prefix
  }

  /** `sub` occurs somewhere in `s`. */
  predicate Contains(s: string, sub: string)
    decreases |s|
  {
    StartsWith(s, sub) || (|s| > 0 && Contains(s[1..], sub))
  }

  /** `sub` occurs in `s` starting at offset `k`. */
  predicate OccursAt(s: string, sub: string, k: nat) {
    k + |sub| <= |s| && s[k..k + |sub|] == sub
  }

  lemma OccursAtChar(s: string, sub: string, k: nat, i: nat)
    requires OccursAt(s, sub, k) && i < |sub|
    ensures s[k + i] == sub[i]
  {
    assert s[k..k + |sub|][i] == s[k + i];
  }

  /** An occurrence found by `Contains` sits at some offset. */
  lemma {:induction false} ContainsWitness(s: string, sub: string)
    requires Contains(s, sub)
    ensures exists k: nat :: OccursAt(s, sub, k)
    decreases |s|
  {
    if !StartsWith(s, sub) {
      ContainsWitness(s[1..], sub);
      var k: nat :| OccursAt(s[1..], sub, k);
      assert s[k + 1..k + 1 + |sub|] == s[1..][k..k + |sub|];
      assert OccursAt(s, sub, k + 1);
    } else {
      assert OccursAt(s, sub, 0);
    }
  }

  /** Length of the run of `\d` starting at `k`. */
  function DigitRun(s: string, k: nat): (n: nat)
    requires k <= |s|
    ensures k + n <= |s|
    decreases |s| - k
  {
    if k == |s| || !IsDigit(s[k]) then 0 else 1 + DigitRun(s, k + 1)
  }

  /** A slice is its first character followed by the rest. */
  lemma SliceCons(s: string, p: nat, q: nat)
    requires p < q <= |s|
    ensures s[p..q] == [s[p]] + s[p + 1..q]
  {
  }

  lemma AppendAssoc(a: string, b: string, c: string)
    ensures a + (b + c) == (a + b) + c
  {
  }

  lemma HeadTail<T>(s: seq<T>)
    requires |s| > 0
    ensures s == [s[0]] + s[1..]
  {
  }

  /** A suffix is its first character followed by the rest. */
  lemma DropCons(s: string, p: nat)
    requires p < |s|
    ensures s[p..] == [s[p]] + s[p + 1..]
  {
  }

  /** A suffix split at `k`. */
  lemma DropNothing<T>(s: seq<T>)
    ensures s[0..] == s
  {
  }

  lemma DropSplit(s: string, p: nat, k: nat)
    requires p <= k <= |s|
    ensures s[p..] == s[p..k] + s[k..]
  {
  }

  /** A slice is all but its last character followed by that character. */
  lemma SliceSnoc(s: string, p: nat, q: nat)
    requires p < q <= |s|
    ensures s[p..q] == s[p..q - 1] + [s[q - 1]]
  {
  }

  /** The run holds only characters of the class and stops before one outside it. */
  lemma {:induction false} DigitRunSpec(s: string, k: nat)
    requires k <= |s|
    ensures forall i :: k <= i < k + DigitRun(s, k) ==> IsDigit(s[i])
    ensures k + DigitRun(s, k) < |s| ==> !IsDigit(s[k + DigitRun(s, k)])
    decreases |s| - k
  {
    if k < |s| && IsDigit(s[k]) {
      DigitRunSpec(s, k + 1);
    }
  }

  /** Length of the run of `\w` starting at `k`. */
  function WordRun(s: string, k: nat): (n: nat)
    requires k <= |s|
    ensures k + n <= |s|
    decreases |s| - k
  {
    if k == |s| || !IsWordChar(s[k]) then 0 else 1 + WordRun(s, k + 1)
  }

  /** The run holds only characters of the class and stops before one outside it. */
  lemma {:induction false} WordRunSpec(s: string, k: nat)
    requires k <= |s|
    ensures forall i :: k <= i < k + WordRun(s, k) ==> IsWordChar(s[i])
    ensures k + WordRun(s, k) < |s| ==> !IsWordChar(s[k + WordRun(s, k)])
    decreases |s| - k
  {
    if k < |s| && IsWordChar(s[k]) {
      WordRunSpec(s, k + 1);
    }
  }

  /** Length of the run of `\s` starting at `k`. */
  function SpaceRun(s: string, k: nat): (n: nat)
    requires k <= |s|
    ensures k + n <= |s|
    decreases |s| - k
  {
    if k == |s| || !IsSpace(s[k]) then 0 else 1 + SpaceRun(s, k + 1)
  }

  /** The run holds only characters of the class and stops before one outside it. */
  lemma {:induction false} SpaceRunSpec(s: string, k: nat)
    requires k <= |s|
    ensures forall i :: k <= i < k + SpaceRun(s, k) ==> IsSpace(s[i])
    ensures k + SpaceRun(s, k) < |s| ==> !IsSpace(s[k + SpaceRun(s, k)])
    decreases |s| - k
  {
    if k < |s| && IsSpace(s[k]) {
      SpaceRunSpec(s, k + 1);
    }
  }

  /** The runs are the maximal ones: a stretch of the class ended by the end
      of the text or by a character outside it is the run. */
  lemma {:induction false} DigitRunIs(s: string, k: nat, n: nat)
    requires k + n <= |s| && forall i :: k <= i < k + n ==> IsDigit(s[i])
    requires k + n < |s| ==> !IsDigit(s[k + n])
    ensures DigitRun(s, k) == n
    decreases n
  {
    if n > 0 {
      DigitRunIs(s, k + 1, n - 1);
    }
  }

  lemma {:induction false} WordRunIs(s: string, k: nat, n: nat)
    requires k + n <= |s| && forall i :: k <= i < k + n ==> IsWordChar(s[i])
    requires k + n < |s| ==> !IsWordChar(s[k + n])
    ensures WordRun(s, k) == n
    decreases n
  {
    if n > 0 {
      WordRunIs(s, k + 1, n - 1);
    }
  }

  lemma {:induction false} SpaceRunIs(s: string, k: nat, n: nat)
    requires k + n <= |s| && forall i :: k <= i < k + n ==> IsSpace(s[i])
    requires k + n < |s| ==> !IsSpace(s[k + n])
    ensures SpaceRun(s, k) == n
    decreases n
  {
    if n > 0 {
      SpaceRunIs(s, k + 1, n - 1);
    }
  }

  /** `str.lower()` restricted to the letters A-Z. */
  function LowerChar(c: char): char {
    if 'A' <= c <= 'Z' then (c as int + 32) as char else c
  }

  function Lower(s: string): (r: string)
    ensures |r| == |s|
    ensures forall i :: 0 <= i < |s| ==> r[i] == LowerChar(s[i])
  {
    seq(|s|, i requires 0 <= i < |s| => LowerChar(s[i]))
  }

  function DigitValue(c: char): nat
    requires IsDigit(c)
  {
    c as int - '0' as int
  }

  function DigitChar(d: nat): (c: char)
    requires d < 10
    ensures IsDigit(c) && DigitValue(c) == d
  {
    ('0' as int + d) as char
  }

  /** `int(s)` on a string of ASCII digits; the empty string reads as 0, which is
      what `int(group or 0)` gives for an empty group. */
  function NumberValue(s: string): nat
    requires AllDigits(s)
    decreases |s|
  {
    if |s| == 0 then 0 else 10 * NumberValue(s[..|s| - 1]) + DigitValue(s[|s| - 1])
  }

  /** At most two digits read as a number below 100. */
  lemma NumberValueBound2(s: string)
    requires AllDigits(s) && |s| <= 2
    ensures NumberValue(s) <= 99
  {
    if |s| > 0 {
      assert AllDigits(s[..|s| - 1]);
      assert |s[..|s| - 1]| <= 1;
      if |s| == 2 {
        assert s[..1][..0] == [];
      }
    }
  }

  /** `f"{n:02d}"` for a number below 100. */
  function Pad2(n: nat): (r: string)
    requires n <= 99
    ensures |r| == 2 && AllDigits(r) && NumberValue(r) == n
  {
    var r := [DigitChar(n / 10), DigitChar(n % 10)];
    assert r[..1] == [r[0]] && [r[0]][..0] == [];
    assert NumberValue(r[..1]) == n / 10;
    r
  }

  /** The value of digits followed by two more digits. */
  lemma NumberValueAppend2(a: string, b: string)
    requires AllDigits(a) && AllDigits(b) && |b| == 2
    ensures AllDigits(a + b) && NumberValue(a + b) == 100 * NumberValue(a) + NumberValue(b)
  {
    var s := a + b;
    var a' := a + [b[0]];
    assert s[..|s| - 1] == a';
    assert a'[..|a'| - 1] == a;
    assert NumberValue(a') == 10 * NumberValue(a) + DigitValue(b[0]);
    assert NumberValue(s) == 10 * NumberValue(a') + DigitValue(b[1]);
    assert b[..|b| - 1] == [b[0]] && [b[0]][..0] == [];
    assert NumberValue([b[0]]) == DigitValue(b[0]);
    assert NumberValue(b) == 10 * DigitValue(b[0]) + DigitValue(b[1]);
  }

  /** `f"{n:04d}"` for a number below 10000. */
  function Pad4(n: nat): (r: string)
    requires n <= 9999
    ensures |r| == 4 && AllDigits(r) && NumberValue(r) == n
  {
    NumberValueAppend2(Pad2(n / 100), Pad2(n % 100));
    Pad2(n / 100) + Pad2(n % 100)
  }

  /** `s.zfill(2)` for a string of one or two digits. */
  function ZeroFill2(s: string): (r: string)
    requires 1 <= |s| <= 2
    ensures |r| == 2 && r[2 - |s|..] == s
    ensures |s| == 1 ==> r[0] == '0'
    ensures AllDigits(s) ==> AllDigits(r) && NumberValue(r) == NumberValue(s)
  {
    if |s| == 1 then
      var r := "0" + s;
      assert r[..1] == "0" && "0"[..0] == [] && s[..0] == [];
      r
    else s
  }

  /** `sep.join(words)`. */
  function Join(words: seq<string>, sep: string): string
    decreases |words|
  {
    if |words| == 0 then ""
    else if |words| == 1 then words[0]
    else words[0] + sep + Join(words[1..], sep)
  }

  /** A token of `str.split()`: non-empty and free of whitespace. */
  predicate IsToken(t: string) {
    |t| > 0 && forall i :: 0 <= i < |t| ==> !IsSpace(t[i])
  }

  /** Visible ASCII text without blanks is a token. */
  lemma VisibleAsciiToken(t: string)
    requires |t| > 0
    requires forall i :: 0 <= i < |t| ==> '!' <= t[i] <= '~'
    ensures IsToken(t)
  {
  }

  /** Length of the leading run of non-whitespace characters. */
  function TokenLength(s: string): (n: nat)
    ensures n <= |s|
    ensures forall i :: 0 <= i < n ==> !IsSpace(s[i])
    ensures n < |s| ==> IsSpace(s[n])
    decreases |s|
  {
    if |s| == 0 || IsSpace(s[0]) then 0 else 1 + TokenLength(s[1..])
  }

  /** `s.split()`: the maximal runs of non-whitespace characters, in order. */
  function Split(s: string): (r: seq<string>)
    ensures forall k :: 0 <= k < |r| ==> IsToken(r[k])
    decreases |s|
  {
    if |s| == 0 then []
    else if IsSpace(s[0]) then Split(s[1..])
    else
      var n := TokenLength(s);
      [s[..n]] + Split(s[n..])
  }

  /** A string whose only whitespace is single ' ' characters between
      non-whitespace characters: what joining tokens with " " gives. */
  predicate SingleSpaced(s: string) {
    && (forall i :: 0 <= i < |s| && IsSpace(s[i]) ==> s[i] == ' ')
    && (forall i :: 0 <= i < |s| - 1 ==> !(IsSpace(s[i]) && IsSpace(s[i + 1])))
    && (|s| > 0 ==> !IsSpace(s[0]) && !IsSpace(s[|s| - 1]))
  }

  /** Joining tokens with single spaces yields a single-spaced string. */
  lemma {:induction false} JoinTokensSingleSpaced(words: seq<string>)
    requires forall k :: 0 <= k < |words| ==> IsToken(words[k])
    ensures SingleSpaced(Join(words, " "))
    decreases |words|
  {
    if |words| > 1 {
      JoinTokensSingleSpaced(words[1..]);
      var rest := Join(words[1..], " ");
      assert |rest| > 0 && !IsSpace(rest[0]) by {
        JoinTokensStart(words[1..]);
      }
      var s := words[0] + " " + rest;
      forall i | 0 <= i < |s| - 1
        ensures !(IsSpace(s[i]) && IsSpace(s[i + 1]))
      {
        if i >= |words[0]| + 1 {
          assert s[i] == rest[i - |words[0]| - 1];
          assert s[i + 1] == rest[i - |words[0]|];
        }
      }
      forall i | 0 <= i < |s| && IsSpace(s[i])
        ensures s[i] == ' '
      {
        if i > |words[0]| {
          assert s[i] == rest[i - |words[0]| - 1];
        }
      }
    }
  }

  lemma {:induction false} JoinTokensStart(words: seq<string>)
    requires |words| > 0
    requires forall k :: 0 <= k < |words| ==> IsToken(words[k])
    ensures |Join(words, " ")| > 0 && !IsSpace(Join(words, " ")[0])
  {
    assert IsToken(words[0]);
  }

  /** `str.split()` undoes joining tokens with " ". */
  lemma {:induction false} SplitJoin(words: seq<string>)
    requires forall k :: 0 <= k < |words| ==> IsToken(words[k])
    ensures Split(Join(words, " ")) == words
    decreases |words|
  {
    if |words| == 1 {
      SplitToken(words[0], "");
      assert words[0] + "" == words[0];
    } else if |words| > 1 {
      SplitJoin(words[1..]);
      SplitJoinStep(words);
    }
  }

  lemma SplitJoinStep(words: seq<string>)
    requires |words| > 1 && IsToken(words[0])
    requires Split(Join(words[1..], " ")) == words[1..]
    ensures Split(Join(words, " ")) == words
  {
    var rest := Join(words[1..], " ");
    SplitAfterSpace(rest);
    SplitToken(words[0], " " + rest);
    assert Join(words, " ") == words[0] + (" " + rest);
    HeadTail(words);
  }

  /** A leading space separates nothing. */
  lemma SplitAfterSpace(rest: string)
    ensures Split(" " + rest) == Split(rest)
  {
    assert (" " + rest)[1..] == rest;
  }

  /** Splitting a token followed by whitespace (or nothing) peels off that token. */
  lemma SplitToken(t: string, rest: string)
    requires IsToken(t)
    requires |rest| == 0 || IsSpace(rest[0])
    ensures Split(t + rest) == [t] + Split(rest)
  {
    var s := t + rest;
    TokenLengthOf(t, rest);
    assert s[..|t|] == t;
    assert s[|t|..] == rest;
  }

  lemma {:induction false} TokenLengthOf(t: string, rest: string)
    requires forall i :: 0 <= i < |t| ==> !IsSpace(t[i])
    requires |rest| == 0 || IsSpace(rest[0])
    ensures TokenLength(t + rest) == |t|
    decreases |t|
  {
    if |t| > 0 {
      assert (t + rest)[1..] == t[1..] + rest;
      TokenLengthOf(t[1..], rest);
    }
  }

  /** `s` with every whitespace character removed. */
  function Squeeze(s: string): (r: string)
    ensures |r| <= |s|
    ensures forall i :: 0 <= i < |r| ==> !IsSpace(r[i])
    decreases |s|
  {
    if |s| == 0 then ""
    else (if IsSpace(s[0]) then "" else [s[0]]) + Squeeze(s[1..])
  }

  /** Removing whitespace works piecewise on a concatenation. */
  lemma {:induction false} SqueezeAppend(a: string, b: string)
    ensures Squeeze(a + b) == Squeeze(a) + Squeeze(b)
    decreases |a|
  {
    if |a| == 0 {
      assert a + b == b;
    } else {
      var c := if IsSpace(a[0]) then "" else [a[0]];
      assert (a + b)[0] == a[0];
      assert (a + b)[1..] == a[1..] + b;
      assert Squeeze(a + b) == c + Squeeze(a[1..] + b);
      SqueezeAppend(a[1..], b);
      AppendAssoc(c, Squeeze(a[1..]), Squeeze(b));
    }
  }

  /** Text without whitespace is its own squeezed form. */
  lemma {:induction false} SqueezeNoSpace(t: string)
    requires forall i :: 0 <= i < |t| ==> !IsSpace(t[i])
    ensures Squeeze(t) == t
    decreases |t|
  {
    if |t| > 0 {
      SqueezeNoSpace(t[1..]);
      HeadTail(t);
    }
  }

  /** Whitespace alone squeezes to nothing. */
  lemma {:induction false} SqueezeAllSpace(t: string)
    requires forall i :: 0 <= i < |t| ==> IsSpace(t[i])
    ensures Squeeze(t) == ""
    decreases |t|
  {
    if |t| > 0 {
      SqueezeAllSpace(t[1..]);
    }
  }

  /** `"".join(words)`. */
  function Concat(words: seq<string>): string
    decreases |words|
  {
    if |words| == 0 then "" else words[0] + Concat(words[1..])
  }

  /** The tokens of `s.split()`, put back together, are the non-whitespace
      characters of `s` in order: splitting loses only whitespace. */
  lemma {:induction false} SplitSqueeze(s: string)
    ensures Concat(Split(s)) == Squeeze(s)
    decreases |s|
  {
    if |s| > 0 {
      if IsSpace(s[0]) {
        SplitSqueeze(s[1..]);
      } else {
        var n := TokenLength(s);
        var w := Split(s[n..]);
        assert Split(s) == [s[..n]] + w;
        assert ([s[..n]] + w)[0] == s[..n] && ([s[..n]] + w)[1..] == w;
        assert Concat(Split(s)) == s[..n] + Concat(w);
        SplitSqueeze(s[n..]);
        assert s == s[..n] + s[n..];
        SqueezeAppend(s[..n], s[n..]);
        SqueezeNoSpace(s[..n]);
      }
    }
  }

  /** A suffix of a single-spaced string that starts at a non-whitespace
      character is single-spaced. */
  lemma SingleSpacedSuffix(s: string, k: nat)
    requires SingleSpaced(s) && k < |s| && !IsSpace(s[k])
    ensures SingleSpaced(s[k..])
  {
    var t := s[k..];
    assert forall i :: 0 <= i < |t| ==> t[i] == s[k + i];
  }

  /** On a single-spaced string, `" ".join(s.split())` gives `s` back. */
  lemma {:induction false} SingleSpacedSplitJoin(s: string)
    requires SingleSpaced(s)
    ensures Join(Split(s), " ") == s
    decreases |s|
  {
    if |s| > 0 {
      var n := TokenLength(s);
      if n == |s| {
        assert s[..n] == s && s[n..] == "";
        assert Split(s) == [s];
      } else {
        SingleSpacedBreak(s);
        var rest := s[n + 1..];
        SingleSpacedSplitJoin(rest);
        JoinCons(s[..n], Split(rest));
        Rejoin(s, n);
      }
    }
  }

  /** In a single-spaced string the first token is followed by one space and
      then by a single-spaced rest that starts another token. */
  lemma SingleSpacedBreak(s: string)
    requires SingleSpaced(s) && |s| > 0 && TokenLength(s) < |s|
    ensures var n := TokenLength(s);
            && s[n] == ' ' && n + 1 < |s|
            && |Split(s[n + 1..])| > 0
            && Split(s) == [s[..n]] + Split(s[n + 1..])
            && SingleSpaced(s[n + 1..])
  {
    var n := TokenLength(s);
    assert !IsSpace(s[n + 1]);
    assert s[n..][1..] == s[n + 1..];
    SingleSpacedSuffix(s, n + 1);
  }

  lemma JoinCons(t: string, w: seq<string>)
    requires |w| > 0
    ensures Join([t] + w, " ") == t + " " + Join(w, " ")
  {
    assert ([t] + w)[0] == t && ([t] + w)[1..] == w;
  }

  lemma Rejoin(s: string, n: nat)
    requires n < |s| && s[n] == ' '
    ensures s == s[..n] + " " + s[n + 1..]
  {
  }

  /** Index of the first non-whitespace character. */
  function StripStart(s: string): (k: nat)
    ensures k <= |s|
    ensures forall i :: 0 <= i < k ==> IsSpace(s[i])
    ensures k < |s| ==> !IsSpace(s[k])
    decreases |s|
  {
    if |s| == 0 || !IsSpace(s[0]) then 0 else 1 + StripStart(s[1..])
  }

  /** One past the index of the last non-whitespace character. */
  function StripEnd(s: string): (k: nat)
    ensures k <= |s|
    ensures forall i :: k <= i < |s| ==> IsSpace(s[i])
    ensures k > 0 ==> !IsSpace(s[k - 1])
    decreases |s|
  {
    if |s| == 0 || !IsSpace(s[|s| - 1]) then |s| else StripEnd(s[..|s| - 1])
  }

  /** `s.strip()`: the slice of `s` between its leading and trailing whitespace. */
  function Strip(s: string): (r: string)
    ensures |r| > 0 ==> !IsSpace(r[0]) && !IsSpace(r[|r| - 1])
    ensures |s| > 0 && !IsSpace(s[0]) && !IsSpace(s[|s| - 1]) ==> r == s
    ensures (forall i :: 0 <= i < |s| ==> IsSpace(s[i])) <==> r == ""
    ensures exists i, j :: && 0 <= i <= j <= |s| && r == s[i..j]
                           && (forall k :: 0 <= k < i ==> IsSpace(s[k]))
                           && (forall k :: j <= k < |s| ==> IsSpace(s[k]))
  {
    var i := StripStart(s);
    var j := StripEnd(s);
    if i < j then s[i..j]
    else
      assert i == |s|;
      assert s[|s|..|s|] == "";
      ""
  }

  /** `s.replace(pattern, replacement)`: every non-overlapping occurrence of `pattern`, scanning
      left to right, becomes `replacement`. */
  function Replace(s: string, pattern: string, replacement: string): (r: string)
    requires |pattern| > 0
    ensures !Contains(s, pattern) ==> r == s
    ensures forall c :: c in r ==> c in s || c in replacement
    ensures |s| > 0 && |replacement| > 0 ==> |r| > 0
    decreases |s|
  {
    if |s| == 0 then ""
    else if StartsWith(s, pattern) then replacement + Replace(s[|pattern|..], pattern, replacement)
    else [s[0]] + Replace(s[1..], pattern, replacement)
  }

  /** The first occurrence of the pattern is replaced, the text before it is
      kept, and replacing resumes after it. */
  lemma {:induction false} ReplaceFirst(u: string, v: string, pattern: string, replacement: string)
    requires |pattern| > 0
    requires forall k :: 0 <= k < |u| ==> !OccursAt(u + pattern + v, pattern, k)
    ensures Replace(u + pattern + v, pattern, replacement) == u + replacement + Replace(v, pattern, replacement)
    decreases |u|
  {
    if |u| == 0 {
      ReplaceAtStart(v, pattern, replacement);
      assert u + pattern + v == pattern + v;
      assert u + replacement == replacement;
    } else {
      var s := u + pattern + v;
      ReplaceNotAtStart(s, pattern, replacement);
      ShiftNoOccurrence(u, v, pattern);
      assert s[1..] == u[1..] + pattern + v;
      ReplaceFirst(u[1..], v, pattern, replacement);
      AppendAssoc([u[0]], u[1..] + replacement, Replace(v, pattern, replacement));
      assert [u[0]] + (u[1..] + replacement) == u + replacement;
    }
  }

  lemma ReplaceAtStart(v: string, pattern: string, replacement: string)
    requires |pattern| > 0
    ensures Replace(pattern + v, pattern, replacement) == replacement + Replace(v, pattern, replacement)
  {
    var s := pattern + v;
    assert s[..|pattern|] == pattern && s[|pattern|..] == v;
  }

  lemma ReplaceNotAtStart(s: string, pattern: string, replacement: string)
    requires |pattern| > 0 && |s| > 0 && !OccursAt(s, pattern, 0)
    ensures Replace(s, pattern, replacement) == [s[0]] + Replace(s[1..], pattern, replacement)
  {
    if |pattern| <= |s| {
      assert s[..|pattern|] == s[0..|pattern|];
    }
  }

  lemma ShiftNoOccurrence(u: string, v: string, pattern: string)
    requires |u| > 0
    requires forall k :: 0 <= k < |u| ==> !OccursAt(u + pattern + v, pattern, k)
    ensures forall k :: 0 <= k < |u[1..]| ==> !OccursAt(u[1..] + pattern + v, pattern, k)
  {
    var s := u + pattern + v;
    var s' := u[1..] + pattern + v;
    forall k | 0 <= k < |u[1..]|
      ensures !OccursAt(s', pattern, k)
    {
      assert !OccursAt(s, pattern, k + 1);
      if k + |pattern| <= |s'| {
        assert s'[k..k + |pattern|] == s[k + 1..k + 1 + |pattern|];
      }
    }
  }

  /** Replacing in a string that is exactly the pattern yields the replacement. */
  lemma ReplaceWhole(pattern: string, replacement: string)
    requires |pattern| > 0
    ensures Replace(pattern, pattern, replacement) == replacement
  {
    assert pattern[|pattern|..] == "";
  }
}
