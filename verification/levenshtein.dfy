/**
  Levenshtein distance: `_levenshtein_distance` (core/text_preprocessor.py).
  `EditDistance` is the textbook recurrence; `LevenshteinDistance` is the
  two-row dynamic programme the source runs, proved to compute it.
 */
module Levenshtein {

  function Min3(x: nat, y: nat, z: nat): (m: nat)
    ensures m <= x && m <= y && m <= z
    ensures m == x || m == y || m == z
  {
    if x <= y && x <= z then x else if y <= z then y else z
  }

  function Abs(x: int): nat {
    if x < 0 then -x else x
  }

  function Max(x: nat, y: nat): nat {
    if x < y then y else x
  }

  /** The least number of single-character insertions, deletions and
      substitutions that turn `a` into `b`, by the recurrence on last characters. */
  function EditDistance(a: string, b: string): nat
    decreases |a| + |b|
  {
    if |a| == 0 then |b|
    else if |b| == 0 then |a|
    else
      var cost := if a[|a| - 1] == b[|b| - 1] then 0 else 1;
      Min3(EditDistance(a[..|a| - 1], b) + 1,
           EditDistance(a, b[..|b| - 1]) + 1,
           EditDistance(a[..|a| - 1], b[..|b| - 1]) + cost)
  }

  /** Dropping the last character of `b` changes the distance by at most one. */
  lemma {:induction false} DropLastOfSecond(a: string, b: string)
    requires |b| > 0
    ensures EditDistance(a, b[..|b| - 1]) <= EditDistance(a, b) + 1
    decreases |a|
  {
    var b' := b[..|b| - 1];
    if |a| > 0 {
      var a' := a[..|a| - 1];
      assert EditDistance(a, b') <= EditDistance(a', b') + 1;
      if EditDistance(a, b) == EditDistance(a', b) + 1 {
        DropLastOfSecond(a', b);
      }
    }
  }

  /** Dropping the last character of `a` changes the distance by at most one. */
  lemma {:induction false} DropLastOfFirst(a: string, b: string)
    requires |a| > 0
    ensures EditDistance(a[..|a| - 1], b) <= EditDistance(a, b) + 1
    decreases |b|
  {
    var a' := a[..|a| - 1];
    if |b| > 0 {
      var b' := b[..|b| - 1];
      assert EditDistance(a', b) <= EditDistance(a', b') + 1;
      if EditDistance(a, b) == EditDistance(a, b') + 1 {
        DropLastOfFirst(a, b');
      }
    }
  }

  /** Equal last characters can always be matched for free: the shortcut the
      dynamic programme takes when `char_a == char_b`. */
  lemma MatchingLast(a: string, b: string)
    requires |a| > 0 && |b| > 0 && a[|a| - 1] == b[|b| - 1]
    ensures EditDistance(a, b) == EditDistance(a[..|a| - 1], b[..|b| - 1])
  {
    DropLastOfSecond(a[..|a| - 1], b);
    DropLastOfFirst(a, b[..|b| - 1]);
  }

  /** A string is at distance 0 from itself. */
  lemma {:induction false} DistanceToSelf(a: string)
    ensures EditDistance(a, a) == 0
    decreases |a|
  {
    if |a| > 0 {
      DistanceToSelf(a[..|a| - 1]);
      MatchingLast(a, a);
    }
  }

  /** Inserting one character anywhere costs exactly one edit. */
  lemma {:induction false} InsertOne(x: string, c: char, y: string)
    ensures EditDistance(x + y, x + [c] + y) == 1
    decreases |y|
  {
    DistanceBounds(x + y, x + [c] + y);
    if |y| == 0 {
      assert x + y == x && (x + [c] + y)[..|x|] == x;
      DistanceToSelf(x);
    } else {
      var y' := y[..|y| - 1];
      assert (x + y)[..|x + y| - 1] == x + y';
      assert (x + [c] + y)[..|x + [c] + y| - 1] == x + [c] + y';
      MatchingLast(x + y, x + [c] + y);
      InsertOne(x, c, y');
    }
  }

  /** The distance lies between the length difference and the longer length. */
  lemma {:induction false} DistanceBounds(a: string, b: string)
    ensures Abs(|a| - |b|) <= EditDistance(a, b) <= Max(|a|, |b|)
    decreases |a| + |b|
  {
    if |a| > 0 && |b| > 0 {
      DistanceBounds(a[..|a| - 1], b);
      DistanceBounds(a, b[..|b| - 1]);
      DistanceBounds(a[..|a| - 1], b[..|b| - 1]);
    }
  }

  /** Distance 0 means equal strings, and only then. */
  lemma {:induction false} ZeroIffEqual(a: string, b: string)
    ensures EditDistance(a, b) == 0 <==> a == b
    decreases |a| + |b|
  {
    if a == b {
      DistanceToSelf(a);
    }
    if |a| > 0 && |b| > 0 && EditDistance(a, b) == 0 {
      ZeroStep(a, b);
      ZeroIffEqual(a[..|a| - 1], b[..|b| - 1]);
      SameLastAndRest(a, b);
    }
  }

  /** Distance 0 between non-empty strings leaves distance 0 between their
      initial parts, with equal last characters. */
  lemma ZeroStep(a: string, b: string)
    requires |a| > 0 && |b| > 0 && EditDistance(a, b) == 0
    ensures a[|a| - 1] == b[|b| - 1] && EditDistance(a[..|a| - 1], b[..|b| - 1]) == 0
  {
    DistanceBounds(a[..|a| - 1], b);
    DistanceBounds(a, b[..|b| - 1]);
  }

  lemma SameLastAndRest(a: string, b: string)
    requires |a| > 0 && |b| > 0 && a[|a| - 1] == b[|b| - 1] && a[..|a| - 1] == b[..|b| - 1]
    ensures a == b
  {
    assert a == a[..|a| - 1] + [a[|a| - 1]];
    assert b == b[..|b| - 1] + [b[|b| - 1]];
  }

  /** One cell of the table from its three neighbours: the diagonal when the
      characters agree, one more than the least neighbour otherwise. */
  lemma NextCell(a: string, b: string, i: nat, j: nat)
    requires i < |a| && j < |b|
    ensures a[i] == b[j] ==> EditDistance(a[..i + 1], b[..j + 1]) == EditDistance(a[..i], b[..j])
    ensures a[i] != b[j] ==>
              EditDistance(a[..i + 1], b[..j + 1]) ==
              1 + Min3(EditDistance(a[..i], b[..j + 1]), EditDistance(a[..i + 1], b[..j]), EditDistance(a[..i], b[..j]))
  {
    assert a[..i + 1][..i] == a[..i];
    assert b[..j + 1][..j] == b[..j];
    if a[i] == b[j] {
      MatchingLast(a[..i + 1], b[..j + 1]);
    }
  }

  /** The source's algorithm: `previous` holds the distances from the prefix
      `a[..i]` to every prefix of `b`; each pass over `b` builds `current` for
      `a[..i + 1]`. */
  method LevenshteinDistance(a: string, b: string) returns (r: nat)
    ensures r == EditDistance(a, b)
  {
    var previous: seq<nat> := seq(|b| + 1, j => j);
    var i := 0;
    while i < |a|
      invariant 0 <= i <= |a|
      invariant |previous| == |b| + 1
      invariant forall j :: 0 <= j <= |b| ==> previous[j] == EditDistance(a[..i], b[..j])
    {
      previous := NextRow(a, b, i, previous);
      i := i + 1;
    }
    assert a[..|a|] == a && b[..|b|] == b;
    r := previous[|b|];
  }

  /** One pass over `b`: the distances from `a[..i + 1]` to every prefix of
      `b`, from those from `a[..i]`. */
  method NextRow(a: string, b: string, i: nat, previous: seq<nat>) returns (current: seq<nat>)
    requires i < |a| && |previous| == |b| + 1
    requires forall j :: 0 <= j <= |b| ==> previous[j] == EditDistance(a[..i], b[..j])
    ensures |current| == |b| + 1
    ensures forall j :: 0 <= j <= |b| ==> current[j] == EditDistance(a[..i + 1], b[..j])
  {
    current := [i + 1] + seq(|b|, _ => 0);
    var j := 0;
    while j < |b|
      invariant 0 <= j <= |b|
      invariant |current| == |b| + 1
      invariant forall k :: 0 <= k <= j ==> current[k] == EditDistance(a[..i + 1], b[..k])
    {
      NextCell(a, b, i, j);
      if a[i] == b[j] {
        current := current[j + 1 := previous[j]];
      } else {
        current := current[j + 1 := 1 + Min3(previous[j + 1], current[j], previous[j])];
      }
      j := j + 1;
    }
  }
}
