/** Worked scenarios of the keyword source and the ranking, stated for all inputs
    of the given shape where that is possible. */
module Scenarios {
  import opened Text
  import opened Ranking
  import opened Keywords

  /** Names that all clean to `k` or to nothing, `k` at least once, give the
      one-entry vocabulary `[k]`. */
  lemma VocabularySingleton(k: string, names: seq<Option<string>>)
    requires IsKeyword(names, k)
    requires forall c :: c in CleanAll(names) ==> c == None || c == Some(k)
    ensures Vocabulary(names) == [k]
  {
    SortedUnique(Vocabulary(names), [k]);
  }

  /** A copy of `k`, bare or padded, cleans to `k`; a missing or empty name to nothing. */
  lemma CopyCleansToKeyword(k: string, pre: string, post: string, raw: Option<string>)
    requires AllSpace(pre) && AllSpace(post)
    requires |k| > 0 && Trimmed(k) && NoDoubledQuote(k) && NoDoubledQuote(pre + k + post)
    requires raw == None || raw == Some("") || raw == Some(k) || raw == Some(pre + k + post)
    ensures Cleaned(raw) == None || Cleaned(raw) == Some(k)
    ensures raw == Some(pre + k + post) ==> Cleaned(raw) == Some(k)
  {
    if raw == Some(k) {
      var none: string := [];
      assert none + k + none == k;
      CleanedPadded(none, k, none);
    } else if raw == Some(pre + k + post) {
      CleanedPadded(pre, k, post);
    }
  }

  /** A document whose names are all copies of `k`, bare or padded with white space,
      or missing or empty, yields exactly the vocabulary `[k]`. */
  lemma PaddedCopiesMerge(k: string, pre: string, post: string, names: seq<Option<string>>)
    requires AllSpace(pre) && AllSpace(post)
    requires |k| > 0 && Trimmed(k) && NoDoubledQuote(k) && NoDoubledQuote(pre + k + post)
    requires |names| > 0 && names[0] == Some(pre + k + post)
    requires forall i :: 0 <= i < |names| ==>
               names[i] == None || names[i] == Some("") || names[i] == Some(k)
               || names[i] == Some(pre + k + post)
    ensures Vocabulary(names) == [k]
  {
    var cs := CleanAll(names);
    CleanAllAt(names, 0);
    CopyCleansToKeyword(k, pre, post, names[0]);
    assert cs[0] == Some(k);
    forall c | c in cs
      ensures c == None || c == Some(k)
    {
      var i :| 0 <= i < |cs| && cs[i] == c;
      CleanAllAt(names, i);
      CopyCleansToKeyword(k, pre, post, names[i]);
    }
    VocabularySingleton(k, names);
  }

  /** `p` cannot occur in `s` when some character of `p` is absent from `s`. */
  lemma AbsentCharNoMatch(s: string, p: string, j: nat)
    requires j < |p|
    requires forall i :: 0 <= i < |s| ==> s[i] != p[j]
    ensures !Contains(s, p)
  {
    forall i | 0 <= i <= |s| - |p|
      ensures !OccursAt(s, p, i)
    {
      assert s[i..i + |p|][j] == s[i + j];
    }
  }

  /** The ranking example: `MovieClip` has no "on" in it, so only the two starts-with
      matches remain, in vocabulary order. */
  lemma RankingExample()
    ensures Suggestions("on", ["on", "onClipEvent", "MovieClip", "Math"])
            == ["on", "onClipEvent"]
  {
    var kws := ["on", "onClipEvent", "MovieClip", "Math"];
    assert Lower("on") == "on";
    assert Lower("onClipEvent") == "onclipevent";
    assert Lower("MovieClip") == "movieclip";
    assert Lower("Math") == "math";
    assert InTier("on", "on", Prefix);
    assert InTier("onClipEvent", "on", Prefix);
    AbsentCharNoMatch("movieclip", "on", 1);
    AbsentCharNoMatch("math", "on", 0);
    assert !Matches("MovieClip", "on") && !Matches("Math", "on");
    MatchesIsOneTier("MovieClip", "on");
    MatchesIsOneTier("Math", "on");
    assert kws[..3][..2][..1][..0] == [];
    assert kws[..3][..2][..1] == ["on"];
    assert kws[..3][..2] == ["on", "onClipEvent"];
    assert kws[..3] == ["on", "onClipEvent", "MovieClip"];
    assert Bucket(kws, "on", Prefix) == ["on", "onClipEvent"];
    MatchesIsOneTier("on", "on");
    MatchesIsOneTier("onClipEvent", "on");
    BucketEmpty(kws, "on", Infix);
  }
}
