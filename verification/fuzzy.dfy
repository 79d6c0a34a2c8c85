/**
  Approximate lookup of a token in a small ordered vocabulary:
  `_max_distance` and `_fuzzy_match` (core/text_preprocessor.py).
 */
module Fuzzy {
  import opened Wrappers
  import opened Levenshtein

  /** A Python dict with insertion order: keys paired with values, in order. */
  type Vocabulary<V> = seq<(string, V)>

  function Keys<V>(vocab: Vocabulary<V>): (ks: seq<string>)
    ensures |ks| == |vocab|
    ensures forall i :: 0 <= i < |vocab| ==> ks[i] == vocab[i].0
  {
    seq(|vocab|, i requires 0 <= i < |vocab| => vocab[i].0)
  }

  /** `vocab[key]`: the value of the first entry with that key. */
  function Lookup<V>(vocab: Vocabulary<V>, key: string): (v: V)
    requires key in Keys(vocab)
    ensures exists i :: 0 <= i < |vocab| && vocab[i] == (key, v)
    decreases |vocab|
  {
    if vocab[0].0 == key then vocab[0].1 else Lookup(vocab[1..], key)
  }

  /** Edit distance tolerated for a word of this length: 1 up to four
      characters, 2 up to seven, 3 beyond. */
  function MaxDistance(word: string): (r: nat)
    ensures 1 <= r <= 3
    ensures |word| <= 4 ==> r == 1
    ensures 4 < |word| <= 7 ==> r == 2
    ensures |word| > 7 ==> r == 3
  {
    if |word| <= 4 then 1
    else if |word| <= 7 then 2
    else 3
  }

  /** The tolerance never shrinks as the word grows. */
  lemma MaxDistanceMonotone(u: string, v: string)
    requires |u| <= |v|
    ensures MaxDistance(u) <= MaxDistance(v)
  {
  }

  /** `min(token, key, key=len)`: the shorter word, the token on a tie. */
  function Shorter(token: string, key: string): (w: string)
    ensures |w| <= |token| && |w| <= |key|
    ensures w == token || w == key
  {
    if |key| < |token| then key else token
  }

  /** The pre-filter: lengths within one of each other and the same first character. */
  predicate PassesFilter(token: string, key: string) {
    Abs(|token| - |key|) <= 1 && |token| > 0 && |key| > 0 && token[0] == key[0]
  }

  /** A key the scan may pick: it passes the pre-filter and lies within the
      tolerance of the shorter of the two words. */
  predicate Qualifies(token: string, key: string) {
    PassesFilter(token, key) && EditDistance(token, key) <= MaxDistance(Shorter(token, key))
  }

  /** The source reads `token[0]` and `key[0]` for every key that survives the
      length filter, so those characters must exist unless the exact-match
      short-circuit returns first. */
  predicate MatchDefined(token: string, keys: seq<string>) {
    token in keys ||
    forall k :: 0 <= k < |keys| && Abs(|token| - |keys[k]|) <= 1 ==> |token| > 0 && |keys[k]| > 0
  }

  /** The running best of the scan: position of the key and its distance. */
  datatype Candidate = Candidate(index: nat, distance: nat)

  /** The best candidate among the first `n` keys: a key replaces the current
      best only when its distance is strictly smaller. */
  function BestAmong(token: string, keys: seq<string>, n: nat): (r: Option<Candidate>)
    requires n <= |keys|
    ensures r.Some? ==> r.value.index < n
    decreases n
  {
    if n == 0 then None
    else
      var best := BestAmong(token, keys, n - 1);
      var key := keys[n - 1];
      if Qualifies(token, key) && (best.None? || EditDistance(token, key) < best.value.distance)
      then Some(Candidate(n - 1, EditDistance(token, key)))
      else best
  }

  /** What the running best `r` over the first `n` keys promises: it
      qualifies, is at its recorded distance, is no farther than any
      qualifying key seen, is strictly nearer than every qualifying key before
      it, and is absent exactly when no key seen qualifies. */
  ghost predicate BestSoFar(token: string, keys: seq<string>, n: nat, r: Option<Candidate>)
    requires n <= |keys|
  {
    && (r.Some? ==> r.value.index < n)
    && (r.Some? ==> Qualifies(token, keys[r.value.index]))
    && (r.Some? ==> r.value.distance == EditDistance(token, keys[r.value.index]))
    && (r.Some? ==> forall j :: 0 <= j < n && Qualifies(token, keys[j]) ==>
                      r.value.distance <= EditDistance(token, keys[j]))
    && (r.Some? ==> forall j :: 0 <= j < r.value.index && Qualifies(token, keys[j]) ==>
                      r.value.distance < EditDistance(token, keys[j]))
    && (r.None? <==> forall j :: 0 <= j < n ==> !Qualifies(token, keys[j]))
  }

  /** The scan keeps its running best what `BestSoFar` says, key after key. */
  lemma {:induction false} BestAmongSpec(token: string, keys: seq<string>, n: nat)
    requires n <= |keys|
    ensures BestSoFar(token, keys, n, BestAmong(token, keys, n))
    decreases n
  {
    if n > 0 {
      BestAmongSpec(token, keys, n - 1);
      BestAmongStep(token, keys, n);
    }
  }

  /** One more key: it takes over only when it qualifies and is strictly nearer. */
  lemma BestAmongStep(token: string, keys: seq<string>, n: nat)
    requires 0 < n <= |keys|
    requires BestSoFar(token, keys, n - 1, BestAmong(token, keys, n - 1))
    ensures BestSoFar(token, keys, n, BestAmong(token, keys, n))
  {
    var best := BestAmong(token, keys, n - 1);
    var key := keys[n - 1];
    if Qualifies(token, key) && (best.None? || EditDistance(token, key) < best.value.distance) {
      TakenStep(token, keys, n, best);
    } else {
      KeptStep(token, keys, n, best);
    }
  }

  /** A key that does not take over leaves the running best as it was. */
  lemma KeptStep(token: string, keys: seq<string>, n: nat, best: Option<Candidate>)
    requires 0 < n <= |keys| && BestSoFar(token, keys, n - 1, best)
    requires !(Qualifies(token, keys[n - 1]) && (best.None? || EditDistance(token, keys[n - 1]) < best.value.distance))
    ensures BestSoFar(token, keys, n, best)
  {
    if best.Some? {
      forall j | 0 <= j < n && Qualifies(token, keys[j])
        ensures best.value.distance <= EditDistance(token, keys[j])
      {
        if j < n - 1 {
          assert best.value.distance <= EditDistance(token, keys[j]);
        }
      }
    }
  }

  /** A qualifying key strictly nearer than the running best replaces it. */
  lemma TakenStep(token: string, keys: seq<string>, n: nat, best: Option<Candidate>)
    requires 0 < n <= |keys| && BestSoFar(token, keys, n - 1, best)
    requires Qualifies(token, keys[n - 1]) && (best.None? || EditDistance(token, keys[n - 1]) < best.value.distance)
    ensures BestSoFar(token, keys, n, Some(Candidate(n - 1, EditDistance(token, keys[n - 1]))))
  {
    var d := EditDistance(token, keys[n - 1]);
    forall j | 0 <= j < n - 1 && Qualifies(token, keys[j])
      ensures d < EditDistance(token, keys[j])
    {
      assert best.Some?;
      assert best.value.distance <= EditDistance(token, keys[j]);
    }
  }

  /** `_fuzzy_match(token, vocabulary)` over the vocabulary's keys in order. */
  function FuzzyMatch(token: string, keys: seq<string>): (r: Option<string>)
    requires MatchDefined(token, keys)
    ensures token in keys ==> r == Some(token)
    ensures r.Some? ==> r.value in keys
  {
    if token in keys then Some(token)
    else
      match BestAmong(token, keys, |keys|)
      case None => None
      case Some(c) => Some(keys[c.index])
  }

  /** For a token outside the vocabulary: a returned key passes the pre-filter
      and the tolerance; nothing is returned exactly when no key qualifies; the
      returned key is at least as near as every qualifying key and strictly
      nearer than every qualifying key before it. */
  lemma FuzzyMatchSpec(token: string, keys: seq<string>)
    requires MatchDefined(token, keys)
    requires token !in keys
    ensures var r := FuzzyMatch(token, keys);
      && (r.Some? ==> Qualifies(token, r.value))
      && (r.None? <==> forall k :: k in keys ==> !Qualifies(token, k))
      && (r.Some? ==> forall k :: k in keys && Qualifies(token, k) ==>
                        EditDistance(token, r.value) <= EditDistance(token, k))
      && (r.Some? ==> exists i :: 0 <= i < |keys| && keys[i] == r.value &&
                        forall j :: 0 <= j < i && Qualifies(token, keys[j]) ==>
                          EditDistance(token, r.value) < EditDistance(token, keys[j]))
  {
    BestAmongSpec(token, keys, |keys|);
    var best := BestAmong(token, keys, |keys|);
    var r := FuzzyMatch(token, keys);
    assert r == if best.None? then None else Some(keys[best.value.index]);
    if r.None? {
      forall k | k in keys
        ensures !Qualifies(token, k)
      {
        var i :| 0 <= i < |keys| && keys[i] == k;
      }
    } else {
      var i := best.value.index;
      assert best.value.distance == EditDistance(token, r.value);
      forall k | k in keys && Qualifies(token, k)
        ensures EditDistance(token, r.value) <= EditDistance(token, k)
      {
        var j :| 0 <= j < |keys| && keys[j] == k;
      }
      assert 0 <= i < |keys| && keys[i] == r.value;
    }
  }

  /** A key that fails the pre-filter is never returned for a token outside the
      vocabulary, however close it is. */
  lemma FilteredKeyNeverMatches(token: string, keys: seq<string>, key: string)
    requires MatchDefined(token, keys)
    requires token !in keys && !PassesFilter(token, key)
    ensures FuzzyMatch(token, keys) != Some(key)
  {
    FuzzyMatchSpec(token, keys);
  }

  /** The source's loop: it computes each distance with the dynamic programme
      and keeps the first strictly better candidate. */
  method FindClosestKey(token: string, keys: seq<string>) returns (r: Option<string>)
    requires MatchDefined(token, keys)
    ensures r == FuzzyMatch(token, keys)
  {
    if token in keys {
      return Some(token);
    }
    var best := ScanKeys(token, keys);
    r := match best case None => None case Some(c) => Some(keys[c.index]);
  }

  /** The loop of `_fuzzy_match` after the exact-match short-circuit. */
  method ScanKeys(token: string, keys: seq<string>) returns (best: Option<Candidate>)
    requires token !in keys && MatchDefined(token, keys)
    ensures best == BestAmong(token, keys, |keys|)
  {
    best := None;
    var i := 0;
    while i < |keys|
      invariant 0 <= i <= |keys|
      invariant best == BestAmong(token, keys, i)
    {
      var key := keys[i];
      if Abs(|token| - |key|) <= 1 && token[0] == key[0] {
        var threshold := MaxDistance(Shorter(token, key));
        var distance := LevenshteinDistance(token, key);
        if distance <= threshold && (best.None? || distance < best.value.distance) {
          best := Some(Candidate(i, distance));
        }
      }
      i := i + 1;
    }
  }
}
