/**
  `_resolve_relative_dates` (core/text_preprocessor.py): the first token whose
  cleaned form is close to a word of `RELATIVE_DATE_MAP` has that word
  replaced by the reference date moved by the word's offset, written
  `YYYY-MM-DD`; the tokens are then rejoined with single spaces.
 */
module RelativeDates {
  import opened Wrappers
  import opened Text
  import opened Fuzzy
  import opened Calendar

  /** `RELATIVE_DATE_MAP`, in the source's order: word and offset in days. */
  const RelativeDateMap: Vocabulary<int> :=
    [("amanha", 1), ("hoje", 0), ("ontem", -1), ("anteontem", -2), ("ante-ontem", -2)]

  function RelativeKeys(): seq<string> {
    Keys(RelativeDateMap)
  }

  lemma RelativeKeysAre()
    ensures RelativeKeys() == ["amanha", "hoje", "ontem", "anteontem", "ante-ontem"]
  {
  }

  /** Every word of the map has at least four characters, so the fuzzy
      matcher never reads the first character of an empty token. */
  lemma RelativeMatchDefined(token: string)
    ensures MatchDefined(token, RelativeKeys())
  {
    RelativeKeysAre();
  }

  /** `[\w-]`: the characters the cleaning keeps. */
  predicate Kept(c: char) {
    IsWordChar(c) || c == '-'
  }

  /** `re.sub(r"[^\w-]", "", token)`: keeps the word characters and hyphens
      wherever they are, drops everything else. */
  function CleanToken(t: string): (r: string)
    ensures |r| <= |t|
    decreases |t|
  {
    if |t| == 0 then ""
    else (if Kept(t[0]) then [t[0]] else "") + CleanToken(t[1..])
  }

  /** The cleaned token holds exactly the kept characters of the token. */
  lemma {:induction false} CleanTokenChars(t: string)
    ensures forall c :: c in CleanToken(t) <==> c in t && Kept(c)
    decreases |t|
  {
    if |t| > 0 {
      CleanTokenChars(t[1..]);
      assert t == [t[0]] + t[1..];
    }
  }

  /** Cleaning works character by character. */
  lemma {:induction false} CleanTokenAppend(a: string, b: string)
    ensures CleanToken(a + b) == CleanToken(a) + CleanToken(b)
    decreases |a|
  {
    if |a| == 0 {
      assert a + b == b;
    } else {
      CleanTokenAppend(a[1..], b);
      assert (a + b)[0] == a[0];
      assert (a + b)[1..] == a[1..] + b;
      AppendAssoc(if Kept(a[0]) then [a[0]] else "", CleanToken(a[1..]), CleanToken(b));
    }
  }

  /** A token made only of kept characters is its own cleaned form. */
  lemma {:induction false} CleanTokenKeeps(t: string)
    requires forall i :: 0 <= i < |t| ==> Kept(t[i])
    ensures CleanToken(t) == t
    decreases |t|
  {
    if |t| > 0 {
      CleanTokenKeeps(t[1..]);
      assert t == [t[0]] + t[1..];
    }
  }

  /** The matched word of a token, if its cleaned form is close to one. */
  function MatchedWord(t: string): (r: Option<string>)
    ensures r.Some? ==> r.value in RelativeKeys()
    ensures r.Some? ==> |CleanToken(t)| > 0
  {
    RelativeMatchDefined(CleanToken(t));
    if CleanToken(t) !in RelativeKeys() then
      FuzzyMatchSpec(CleanToken(t), RelativeKeys());
      FuzzyMatch(CleanToken(t), RelativeKeys())
    else FuzzyMatch(CleanToken(t), RelativeKeys())
  }

  /** `(reference_date + timedelta(days=delta)).strftime("%Y-%m-%d")`; None
      when the sum leaves `datetime`'s range (Python raises `OverflowError`)
      or lands before the year 1000, where `%Y` is not four digits on every
      platform. */
  function ShiftedDate(reference: Date, delta: int): (r: Option<string>)
    requires Valid(reference)
    ensures r.Some? <==> AddDays(reference, delta).Some? && AddDays(reference, delta).value.year >= 1000
    ensures r.Some? ==> |r.value| == 10 && IsToken(r.value)
  {
    RenderDate(AddDays(reference, delta))
  }

  /** `strftime("%Y-%m-%d")` where the year has four digits. */
  function RenderDate(d: Option<Date>): (r: Option<string>)
    requires d.Some? ==> Valid(d.value)
    ensures r.Some? <==> d.Some? && d.value.year >= 1000
    ensures r.Some? ==> |r.value| == 10 && IsToken(r.value)
  {
    if d.Some? && d.value.year >= 1000 then
      FormattedDateIsToken(d.value);
      Some(FormatDate(d.value))
    else None
  }

  lemma FormattedDateIsToken(d: Date)
    requires Valid(d) && d.year >= 1000
    ensures |FormatDate(d)| == 10 && IsToken(FormatDate(d))
  {
    var s := FormatDate(d);
    forall i | 0 <= i < |s|
      ensures !IsSpace(s[i])
    {
      assert IsDigit(s[i]) || s[i] == '-';
    }
  }

  /** The stage's result: the rewritten tokens and the date hint, or the
      overflow the date arithmetic raises. */
  datatype Resolution = Resolution(tokens: seq<string>, hint: Option<string>) | OutOfRange

  /** What one pass of the source's loop does with a token: goes on to the
      next one, or stops with the rewritten token and its date, or with the
      overflow. */
  datatype Step = PassOver | Rewrite(token: string, date: string) | Overflows

  /** The token at the first match, rewritten with `str.replace`. */
  function RewriteToken(t: string, date: string): (r: string)
    requires MatchedWord(t).Some?
    requires IsToken(date)
    ensures IsToken(t) ==> IsToken(r)
  {
    var r := Replace(t, CleanToken(t), date);
    assert forall i :: 0 <= i < |r| ==> r[i] in r;
    r
  }

  /** The date a matching token stands for, if it can be written. */
  function DateFor(t: string, reference: Date): (r: Option<string>)
    requires Valid(reference)
    requires MatchedWord(t).Some?
    ensures r.Some? ==> |r.value| == 10 && IsToken(r.value)
  {
    ShiftedDate(reference, Lookup(RelativeDateMap, MatchedWord(t).value))
  }

  /** One pass of the loop: a token whose cleaned form matches no word is
      passed over; a matching one is rewritten with its date, or overflows. */
  function TokenStep(t: string, reference: Date): (r: Step)
    requires Valid(reference)
    ensures r.PassOver? <==> MatchedWord(t).None?
    ensures r.Rewrite? ==> |r.date| == 10 && IsToken(r.date) && (IsToken(t) ==> IsToken(r.token))
  {
    if MatchedWord(t).None? then PassOver
    else
      match DateFor(t, reference)
      case None => Overflows
      case Some(date) => Rewrite(RewriteToken(t, date), date)
  }

  /** A token the loop passed over, in front of the rest of the result. */
  function Prepend(t: string, r: Resolution): Resolution {
    match r
    case OutOfRange => OutOfRange
    case Resolution(rest, hint) => Resolution([t] + rest, hint)
  }

  /** The source's loop over the tokens, for a given pass; once a pass stops
      no further token is looked at. */
  function ResolveWith(tokens: seq<string>, step: string -> Step): (r: Resolution)
    ensures r.Resolution? ==> |r.tokens| == |tokens|
    decreases |tokens|
  {
    if |tokens| == 0 then Resolution([], None)
    else
      match step(tokens[0])
      case PassOver => Prepend(tokens[0], ResolveWith(tokens[1..], step))
      case Overflows => OutOfRange
      case Rewrite(t, date) => Resolution([t] + tokens[1..], Some(date))
  }

  /** The loop with the stage's own pass. */
  function ResolveTokens(tokens: seq<string>, reference: Date): (r: Resolution)
    requires Valid(reference)
  {
    ResolveWith(tokens, t => TokenStep(t, reference))
  }

  /** The first token at which the pass stops. */
  ghost predicate FirstStop(tokens: seq<string>, step: string -> Step, i: nat) {
    i < |tokens| && !step(tokens[i]).PassOver? &&
    forall j :: 0 <= j < i ==> step(tokens[j]).PassOver?
  }

  /** The result when the pass stops at `i`: that token alone rewritten, or
      the overflow. */
  function StoppedAt(tokens: seq<string>, i: nat, s: Step): Resolution
    requires i < |tokens|
  {
    match s
    case Rewrite(t, date) => Resolution(tokens[i := t], Some(date))
    case _ => OutOfRange
  }

  /** Only the token where the pass stops is changed. */
  lemma {:induction false} ResolveWithFirstStop(tokens: seq<string>, step: string -> Step, i: nat)
    requires FirstStop(tokens, step, i)
    ensures ResolveWith(tokens, step) == StoppedAt(tokens, i, step(tokens[i]))
    decreases i
  {
    if i > 0 {
      assert forall j :: 0 <= j < i - 1 ==> tokens[1..][j] == tokens[j + 1];
      assert tokens[1..][i - 1] == tokens[i];
      ResolveWithFirstStop(tokens[1..], step, i - 1);
      if step(tokens[i]).Rewrite? {
        UpdateInTail(tokens, i, step(tokens[i]).token);
      }
    } else if step(tokens[0]).Rewrite? {
      UpdateHead(tokens, step(tokens[0]).token);
    }
  }

  /** When the pass never stops, the tokens come back unchanged and there is
      no hint. */
  lemma {:induction false} ResolveWithNoStop(tokens: seq<string>, step: string -> Step)
    requires forall j :: 0 <= j < |tokens| ==> step(tokens[j]).PassOver?
    ensures ResolveWith(tokens, step) == Resolution(tokens, None)
    decreases |tokens|
  {
    if |tokens| > 0 {
      assert forall j :: 0 <= j < |tokens[1..]| ==> tokens[1..][j] == tokens[j + 1];
      ResolveWithNoStop(tokens[1..], step);
      HeadTail(tokens);
    }
  }

  /** Without a hint nothing was rewritten. */
  lemma {:induction false} ResolveWithNoHint(tokens: seq<string>, step: string -> Step)
    ensures ResolveWith(tokens, step).Resolution? && ResolveWith(tokens, step).hint.None? ==>
              ResolveWith(tokens, step).tokens == tokens
    decreases |tokens|
  {
    if |tokens| > 0 && step(tokens[0]).PassOver? {
      ResolveWithNoHint(tokens[1..], step);
      HeadTail(tokens);
    }
  }

  /** The hint is a date the pass produced. */
  lemma {:induction false} ResolveWithHint(tokens: seq<string>, step: string -> Step)
    ensures ResolveWith(tokens, step).Resolution? && ResolveWith(tokens, step).hint.Some? ==>
              exists j :: 0 <= j < |tokens| && step(tokens[j]) ==
                Rewrite(ResolveWith(tokens, step).tokens[j], ResolveWith(tokens, step).hint.value)
    decreases |tokens|
  {
    if |tokens| > 0 && step(tokens[0]).PassOver? {
      ResolveWithHint(tokens[1..], step);
      var r := ResolveWith(tokens, step);
      if r.Resolution? && r.hint.Some? {
        var j :| 0 <= j < |tokens[1..]| && step(tokens[1..][j]) ==
                 Rewrite(ResolveWith(tokens[1..], step).tokens[j], r.hint.value);
        assert step(tokens[j + 1]) == Rewrite(r.tokens[j + 1], r.hint.value);
      }
    }
  }

  predicate AllTokens(ts: seq<string>) {
    forall k :: 0 <= k < |ts| ==> IsToken(ts[k])
  }

  lemma AllTokensCons(t: string, ts: seq<string>)
    requires IsToken(t) && AllTokens(ts)
    ensures AllTokens([t] + ts)
  {
    assert forall k :: 0 < k < |ts| + 1 ==> ([t] + ts)[k] == ts[k - 1];
  }

  /** A pass that keeps tokens tokens keeps every token a token. */
  lemma {:induction false} ResolveWithTokens(tokens: seq<string>, step: string -> Step)
    requires AllTokens(tokens)
    requires forall t :: IsToken(t) && step(t).Rewrite? ==> IsToken(step(t).token)
    ensures ResolveWith(tokens, step).Resolution? ==> AllTokens(ResolveWith(tokens, step).tokens)
    decreases |tokens|
  {
    if |tokens| > 0 {
      assert IsToken(tokens[0]);
      assert AllTokens(tokens[1..]) by {
        assert forall k :: 0 <= k < |tokens| - 1 ==> tokens[1..][k] == tokens[k + 1];
      }
      match step(tokens[0]) {
        case PassOver =>
          ResolveWithTokens(tokens[1..], step);
          if ResolveWith(tokens[1..], step).Resolution? {
            AllTokensCons(tokens[0], ResolveWith(tokens[1..], step).tokens);
          }
        case Overflows =>
        case Rewrite(t, date) =>
          AllTokensCons(t, tokens[1..]);
      }
    }
  }

  lemma UpdateHead<T>(s: seq<T>, t: T)
    requires 0 < |s|
    ensures s[0 := t] == [t] + s[1..]
  {
  }

  lemma UpdateInTail<T>(s: seq<T>, i: nat, t: T)
    requires 0 < i < |s|
    ensures s[i := t] == [s[0]] + s[1..][i - 1 := t]
  {
  }

  /** The first token whose cleaned form matches a relative-date word. */
  ghost predicate FirstMatch(tokens: seq<string>, i: nat) {
    i < |tokens| && MatchedWord(tokens[i]).Some? &&
    forall j :: 0 <= j < i ==> MatchedWord(tokens[j]).None?
  }

  /** The outcome when token `i` is the first match: that token alone
      rewritten with its date, or the overflow. */
  function FirstMatchOutcome(tokens: seq<string>, reference: Date, i: nat): Resolution
    requires Valid(reference)
    requires i < |tokens| && MatchedWord(tokens[i]).Some?
  {
    match DateFor(tokens[i], reference)
    case None => OutOfRange
    case Some(date) => Resolution(tokens[i := RewriteToken(tokens[i], date)], Some(date))
  }

  /** Only the first matching token is rewritten: with the date its word
      denotes, or the stage overflows. */
  lemma ResolveTokensFirstMatch(tokens: seq<string>, reference: Date, i: nat)
    requires Valid(reference)
    requires FirstMatch(tokens, i)
    ensures ResolveTokens(tokens, reference) == FirstMatchOutcome(tokens, reference, i)
  {
    var step := t => TokenStep(t, reference);
    assert FirstStop(tokens, step, i);
    ResolveWithFirstStop(tokens, step, i);
  }

  /** When no token matches, the tokens come back unchanged and there is no hint. */
  lemma ResolveTokensNoMatch(tokens: seq<string>, reference: Date)
    requires Valid(reference)
    requires forall j :: 0 <= j < |tokens| ==> MatchedWord(tokens[j]).None?
    ensures ResolveTokens(tokens, reference) == Resolution(tokens, None)
  {
    var step := t => TokenStep(t, reference);
    assert forall j :: 0 <= j < |tokens| ==> step(tokens[j]).PassOver?;
    ResolveWithNoStop(tokens, step);
  }

  /** What the stage's loop guarantees: tokens stay tokens, nothing changes
      without a hint, and a hint is a ten-character date. */
  lemma ResolveTokensFacts(tokens: seq<string>, reference: Date)
    requires Valid(reference) && AllTokens(tokens)
    ensures var r := ResolveTokens(tokens, reference);
      && (r.Resolution? ==> |r.tokens| == |tokens| && AllTokens(r.tokens))
      && (r.Resolution? && r.hint.None? ==> r.tokens == tokens)
      && (r.Resolution? && r.hint.Some? ==> |r.hint.value| == 10)
  {
    var step := t => TokenStep(t, reference);
    ResolveWithTokens(tokens, step);
    ResolveWithNoHint(tokens, step);
    ResolveWithHint(tokens, step);
  }

  /** `_resolve_relative_dates`: the text as rejoined tokens and the hint. */
  datatype Resolved = Resolved(text: string, hint: Option<string>) | Overflow

  function ResolveRelativeDates(text: string, reference: Date): (r: Resolved)
    requires Valid(reference)
    ensures r.Resolved? ==> SingleSpaced(r.text)
    ensures r.Resolved? && r.hint.None? ==> r.text == Join(Split(text), " ")
    ensures r.Resolved? && r.hint.Some? ==> |r.hint.value| == 10
  {
    var tokens := Split(text);
    ResolveTokensFacts(tokens, reference);
    match ResolveTokens(tokens, reference)
    case OutOfRange => Overflow
    case Resolution(out, hint) =>
      JoinTokensSingleSpaced(out);
      Resolved(Join(out, " "), hint)
  }

  /** With the reference date 2026-02-23, "amanha" stands for 2026-02-24. */
  lemma TomorrowDate(t: string)
    requires CleanToken(t) == "amanha"
    ensures MatchedWord(t) == Some("amanha")
    ensures DateFor(t, Date(2026, 2, 23)) == Some("2026-02-24")
  {
    RelativeKeysAre();
    assert "amanha" in RelativeKeys();
    assert Lookup(RelativeDateMap, "amanha") == 1;
    FixtureTomorrow();
    FixtureTomorrowText();
  }

  lemma TomorrowWord()
    ensures CleanToken("amanha") == "amanha" && IsToken("amanha")
    ensures Join(["amanha"], " ") == "amanha"
  {
    CleanTokenKeeps("amanha");
    VisibleAsciiToken("amanha");
  }

  /** "amanha" alone becomes the date of the next day. */
  lemma TomorrowResolved()
    ensures ResolveRelativeDates("amanha", Date(2026, 2, 23)) == Resolved("2026-02-24", Some("2026-02-24"))
  {
    var words := ["amanha"];
    TomorrowWord();
    SplitJoin(words);
    TomorrowTokens();
    assert Join(["2026-02-24"], " ") == "2026-02-24";
  }

  lemma TomorrowTokens()
    ensures ResolveTokens(["amanha"], Date(2026, 2, 23)) == Resolution(["2026-02-24"], Some("2026-02-24"))
  {
    var words := ["amanha"];
    TomorrowWord();
    ReplaceWhole("amanha", "2026-02-24");
    TomorrowDate("amanha");
    ResolveTokensFirstMatch(words, Date(2026, 2, 23), 0);
    assert words[0 := "2026-02-24"] == ["2026-02-24"];
  }

  lemma DottedWord()
    ensures CleanToken("ama.nha") == "amanha" && IsToken("ama.nha")
    ensures !Contains("ama.nha", "amanha")
    ensures Join(["ama.nha"], " ") == "ama.nha"
  {
    DottedClean();
    VisibleAsciiToken("ama.nha");
    DottedLacksWord();
  }

  lemma DottedClean()
    ensures CleanToken("ama.nha") == "amanha"
  {
    DottedPieces();
    CleanTokenAppend("ama", ".nha");
    CleanTokenAppend(".", "nha");
  }

  lemma DottedPieces()
    ensures "ama.nha" == "ama" + ".nha" && ".nha" == "." + "nha"
    ensures CleanToken("ama") == "ama" && CleanToken(".") == "" && CleanToken("nha") == "nha"
  {
    CleanTokenKeeps("ama");
    CleanTokenKeeps("nha");
    assert "."[1..] == "";
  }

  lemma DottedLacksWord()
    ensures !Contains("ama.nha", "amanha")
  {
    if Contains("ama.nha", "amanha") {
      ContainsWitness("ama.nha", "amanha");
      var k: nat :| OccursAt("ama.nha", "amanha", k);
      if k == 0 {
        OccursAtChar("ama.nha", "amanha", k, 3);
        assert false;
      } else {
        OccursAtChar("ama.nha", "amanha", k, 0);
        assert false;
      }
    }
  }

  /** "ama.nha" cleans to "amanha", so the date is resolved and reported, but
      `str.replace` finds no "amanha" inside "ama.nha" and the token stays as
      it was. */
  lemma DottedTomorrowKeepsToken()
    ensures ResolveRelativeDates("ama.nha", Date(2026, 2, 23)) == Resolved("ama.nha", Some("2026-02-24"))
  {
    DottedWord();
    SplitJoin(["ama.nha"]);
    DottedTokens();
  }

  lemma DottedTokens()
    ensures ResolveTokens(["ama.nha"], Date(2026, 2, 23)) == Resolution(["ama.nha"], Some("2026-02-24"))
  {
    DottedTokensOf(["ama.nha"], Date(2026, 2, 23));
  }

  lemma DottedTokensOf(words: seq<string>, reference: Date)
    requires words == ["ama.nha"] && reference == Date(2026, 2, 23)
    ensures ResolveTokens(words, reference) == Resolution(words, Some("2026-02-24"))
  {
    DottedWord();
    TomorrowDate("ama.nha");
    DottedRewrite("2026-02-24");
    ResolveTokensFirstMatch(words, reference, 0);
    SameUpdate(words, 0);
  }

  lemma SameUpdate<T>(s: seq<T>, i: nat)
    requires i < |s|
    ensures s[i := s[i]] == s
  {
  }

  /** Whatever date it stands for, `ama.nha` is kept as it is. */
  lemma DottedRewrite(date: string)
    requires MatchedWord("ama.nha").Some? && IsToken(date)
    ensures RewriteToken("ama.nha", date) == "ama.nha"
  {
    DottedWord();
    RewriteWithoutWord("ama.nha", date);
  }

  /** A token whose cleaned form does not occur in it is left as it is. */
  lemma RewriteWithoutWord(t: string, date: string)
    requires MatchedWord(t).Some? && IsToken(date)
    requires !Contains(t, CleanToken(t))
    ensures RewriteToken(t, date) == t
  {
  }
}
