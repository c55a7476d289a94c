/** The word under construction: the longest run of token characters that
    ends at the caret. */
module Token {
  import opened Text

  /** `value.slice(0, caret)` keeps the whole text when the caret lies past its end. */
  function Clamp(caret: nat, len: nat): (c: nat)
    ensures c <= len
    ensures caret <= len ==> c == caret
  {
    if caret <= len then caret else len
  }

  predicate AllTokenChars(w: string) {
    forall i :: 0 <= i < |w| ==> IsTokenChar(w[i])
  }

  /** `w` is a suffix of `s` made of token characters that cannot be extended to the left. */
  predicate IsMaximalRun(s: string, w: string) {
    && |w| <= |s|
    && s[|s| - |w|..] == w
    && AllTokenChars(w)
    && (|w| == |s| || !IsTokenChar(s[|s| - |w| - 1]))
  }

  /** What the pattern `([A-Za-z0-9_.]+)$` matches at the end of `s`, or "" when it does not. */
  function TrailingRun(s: string): (w: string)
    ensures IsMaximalRun(s, w)
    decreases |s|
  {
    if |s| == 0 || !IsTokenChar(s[|s| - 1]) then []
    else
      var w' := TrailingRun(s[..|s| - 1]);
      assert s[|s| - |w'| - 1..] == s[..|s| - 1][|s| - 1 - |w'|..] + [s[|s| - 1]];
      w' + [s[|s| - 1]]
  }

  /** Only one suffix is a maximal run: the token is well defined. */
  lemma MaximalRunUnique(s: string, w: string)
    requires IsMaximalRun(s, w)
    ensures w == TrailingRun(s)
  {
  }

  /** The current word for text `value` and caret offset `caret`. */
  function CurrentWord(value: string, caret: nat): (w: string)
    ensures IsMaximalRun(value[..Clamp(caret, |value|)], w)
  {
    TrailingRun(value[..Clamp(caret, |value|)])
  }

  /** The word is empty exactly when the caret is at the start or follows a non-token character. */
  lemma CurrentWordEmptyIff(value: string, caret: nat)
    ensures var c := Clamp(caret, |value|);
            CurrentWord(value, caret) == [] <==> c == 0 || !IsTokenChar(value[c - 1])
  {
  }
}
