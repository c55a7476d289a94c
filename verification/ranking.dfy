/** Two-tier ranking of the vocabulary against the current word: keywords that
    start with the word (case-insensitively) first, then keywords that merely
    contain it, each tier in vocabulary order, at most twelve in all. */
module Ranking {
  import opened Text

  const MaxSuggestions: nat := 12

  /** The two buckets of the ranking loop. */
  datatype Tier = Prefix | Infix

  /** `kw` belongs to tier `t` for the already lower-cased word `lower`. */
  predicate InTier(kw: string, lower: string, t: Tier) {
    match t
    case Prefix => StartsWith(Lower(kw), lower)
    case Infix => !StartsWith(Lower(kw), lower) && Contains(Lower(kw), lower)
  }

  /** `kw` is a candidate at all: its lower-cased form contains the word. */
  predicate Matches(kw: string, lower: string) {
    Contains(Lower(kw), lower)
  }

  lemma MatchesIsOneTier(kw: string, lower: string)
    ensures Matches(kw, lower) <==> InTier(kw, lower, Prefix) || InTier(kw, lower, Infix)
    ensures !(InTier(kw, lower, Prefix) && InTier(kw, lower, Infix))
  {
    if StartsWith(Lower(kw), lower) {
      StartsWithContains(Lower(kw), lower);
    }
  }

  /** The keywords of tier `t`, in the order of `kws`: what the loop pushes into one bucket. */
  function Bucket(kws: seq<string>, lower: string, t: Tier): (b: seq<string>)
    ensures |b| <= |kws|
    ensures forall k :: k in b <==> k in kws && InTier(k, lower, t)
    decreases |kws|
  {
    if |kws| == 0 then []
    else
      var init := kws[..|kws| - 1];
      var last := kws[|kws| - 1];
      assert kws == init + [last];
      Bucket(init, lower, t) + (if InTier(last, lower, t) then [last] else [])
  }

  /** `a` is obtained from `b` by deleting elements: the relative order of `a` is that of `b`. */
  predicate Subsequence<T(==)>(a: seq<T>, b: seq<T>)
    decreases |b|
  {
    if |a| == 0 then true
    else if |b| == 0 then false
    else (a[|a| - 1] == b[|b| - 1] && Subsequence(a[..|a| - 1], b[..|b| - 1]))
         || Subsequence(a, b[..|b| - 1])
  }

  /** Each bucket keeps the vocabulary's relative order. */
  lemma {:induction false} BucketIsSubsequence(kws: seq<string>, lower: string, t: Tier)
    ensures Subsequence(Bucket(kws, lower, t), kws)
    decreases |kws|
  {
    if |kws| > 0 {
      var init := kws[..|kws| - 1];
      BucketIsSubsequence(init, lower, t);
      var b := Bucket(kws, lower, t);
      if InTier(kws[|kws| - 1], lower, t) {
        assert b[..|b| - 1] == Bucket(init, lower, t);
      } else {
        assert b == Bucket(init, lower, t);
      }
    }
  }

  /** A bucket of a concatenation is the concatenation of the buckets: entries from
      earlier in the vocabulary come earlier in the bucket. */
  lemma {:induction false} BucketAppend(a: seq<string>, b: seq<string>, lower: string, t: Tier)
    ensures Bucket(a + b, lower, t) == Bucket(a, lower, t) + Bucket(b, lower, t)
    decreases |b|
  {
    if |b| == 0 {
      assert a + b == a;
    } else {
      var init := b[..|b| - 1];
      var last := b[|b| - 1];
      assert (a + b)[..|a + b| - 1] == a + init;
      assert (a + b)[|a + b| - 1] == last;
      BucketAppend(a, init, lower, t);
      var tail := if InTier(last, lower, t) then [last] else [];
      assert Bucket(b, lower, t) == Bucket(init, lower, t) + tail;
      assert Bucket(a + b, lower, t) == Bucket(a + init, lower, t) + tail;
    }
  }

  /** A bucket is empty when no keyword belongs to its tier. */
  lemma {:induction false} BucketEmpty(kws: seq<string>, lower: string, t: Tier)
    requires forall i :: 0 <= i < |kws| ==> !InTier(kws[i], lower, t)
    ensures Bucket(kws, lower, t) == []
    decreases |kws|
  {
    if |kws| > 0 {
      BucketEmpty(kws[..|kws| - 1], lower, t);
    }
  }

  function Take<T>(s: seq<T>, n: nat): seq<T> {
    if |s| <= n then s else s[..n]
  }

  /** The suggestion list for `word` over the vocabulary `kws`. */
  function Suggestions(word: string, kws: seq<string>): (r: seq<string>)
    ensures |r| <= MaxSuggestions
    ensures forall k :: k in r ==> k in kws && Matches(k, Lower(word))
    ensures |word| == 0 || |kws| == 0 ==> r == []
  {
    if |word| == 0 || |kws| == 0 then []
    else
      var lower := Lower(word);
      var a := Bucket(kws, lower, Prefix);
      var b := Bucket(kws, lower, Infix);
      assert forall k :: k in a + b ==> Matches(k, lower) by {
        forall k | k in a + b {
          MatchesIsOneTier(k, lower);
        }
      }
      Take(a + b, MaxSuggestions)
  }

  /** The ranking loop of the editor, bucket by bucket, then the cut to twelve. */
  method Suggest(word: string, kws: seq<string>) returns (r: seq<string>)
    ensures r == Suggestions(word, kws)
  {
    if |word| == 0 || |kws| == 0 {
      return [];
    }
    var lower := Lower(word);
    var startsWith: seq<string> := [];
    var contains: seq<string> := [];
    for i := 0 to |kws|
      invariant startsWith == Bucket(kws[..i], lower, Prefix)
      invariant contains == Bucket(kws[..i], lower, Infix)
    {
      assert kws[..i + 1][..i] == kws[..i];
      var kwLower := Lower(kws[i]);
      if StartsWith(kwLower, lower) {
        startsWith := startsWith + [kws[i]];
      } else if Contains(kwLower, lower) {
        contains := contains + [kws[i]];
      }
    }
    assert kws[..|kws|] == kws;
    r := Take(startsWith + contains, MaxSuggestions);
  }

  /** Starts-with matches precede contains-only matches, the result is a prefix of the two
      order-keeping buckets laid end to end, and no keyword sits in both buckets. */
  lemma SuggestionsRanked(word: string, kws: seq<string>)
    requires |word| > 0 && |kws| > 0
    ensures var lower := Lower(word);
            var r := Suggestions(word, kws);
            var a := Bucket(kws, lower, Prefix);
            var b := Bucket(kws, lower, Infix);
            && Subsequence(a, kws) && Subsequence(b, kws)
            && (forall k :: k in a ==> k !in b)
            && r <= a + b
            && |r| == (if |a| + |b| <= MaxSuggestions then |a| + |b| else MaxSuggestions)
            && (forall i, j :: 0 <= i < j < |r| && InTier(r[j], lower, Prefix) ==> InTier(r[i], lower, Prefix))
  {
    var lower := Lower(word);
    var r := Suggestions(word, kws);
    var a := Bucket(kws, lower, Prefix);
    var b := Bucket(kws, lower, Infix);
    BucketIsSubsequence(kws, lower, Prefix);
    BucketIsSubsequence(kws, lower, Infix);
    forall k | k in a
      ensures k !in b
    {
      MatchesIsOneTier(k, lower);
    }
    forall i, j | 0 <= i < j < |r| && InTier(r[j], lower, Prefix)
      ensures InTier(r[i], lower, Prefix)
    {
      assert r[j] == (a + b)[j];
      assert r[i] == (a + b)[i];
      if j >= |a| {
        assert r[j] in b;
        MatchesIsOneTier(r[j], lower);
      }
      assert i < |a|;
      assert r[i] in a;
    }
  }

  /** When at most twelve keywords match, every matching keyword is suggested. */
  lemma SuggestionsComplete(word: string, kws: seq<string>)
    requires |word| > 0
    requires |Bucket(kws, Lower(word), Prefix)| + |Bucket(kws, Lower(word), Infix)| <= MaxSuggestions
    ensures forall k :: k in kws && Matches(k, Lower(word)) ==> k in Suggestions(word, kws)
  {
    var lower := Lower(word);
    forall k | k in kws && Matches(k, lower)
      ensures k in Suggestions(word, kws)
    {
      MatchesIsOneTier(k, lower);
    }
  }
}
