/** The editor's state machine: buffer text and caret, the selection in the
    suggestion popup, acceptance of a suggestion, the selection reset that runs
    whenever the suggestion list is recomputed, and the keyboard handler. */
module Editor {
  import opened Text
  import opened Token
  import opened Ranking

  /** Keys the handler distinguishes; every other key is `Other`. */
  datatype Key = ArrowDown | ArrowUp | Enter | Tab | Escape | Other

  /** Text, caret offset, highlighted suggestion and popup visibility. */
  datatype EditorState = EditorState(text: string, caret: nat, activeIndex: nat, visible: bool)

  /** The state of a freshly mounted editor. */
  const Initial := EditorState("", 0, 0, false)

  /** A key press's new state and whether the browser's default action was suppressed. */
  datatype KeyResult = KeyResult(state: EditorState, prevented: bool)

  function Word(st: EditorState): string {
    CurrentWord(st.text, st.caret)
  }

  function SuggestionsOf(st: EditorState, kws: seq<string>): seq<string> {
    Suggestions(Word(st), kws)
  }

  /** Replace the current word by `kw`, put the caret after it and hide the popup;
      nothing happens when there is no current word. */
  function Accept(st: EditorState, kw: string): (st': EditorState)
    ensures |Word(st)| == 0 ==> st' == st
    ensures |Word(st)| > 0 ==>
      var c := Clamp(st.caret, |st.text|);
      var start := c - |Word(st)|;
      && st'.caret == start + |kw|
      && |st'.text| == |st.text| - |Word(st)| + |kw|
      && st'.text[..start] == st.text[..start]
      && st'.text[start..st'.caret] == kw
      && st'.text[st'.caret..] == st.text[c..]
      && !st'.visible
      && st'.activeIndex == st.activeIndex
  {
    var w := Word(st);
    if |w| == 0 then st
    else
      var c := Clamp(st.caret, |st.text|);
      var before := st.text[..c];
      var after := st.text[c..];
      var newBefore := before[..|before| - |TrailingRun(before)|] + kw;
      assert (newBefore + after)[..c - |w|] == st.text[..c - |w|];
      assert (newBefore + after)[c - |w|..|newBefore|] == kw;
      st.(text := newBefore + after, caret := |newBefore|, visible := false)
  }

  /** Accepting a keyword made of token characters makes it the current word. */
  lemma AcceptMakesKeywordTheWord(st: EditorState, kw: string)
    requires |Word(st)| > 0
    requires AllTokenChars(kw)
    ensures Word(Accept(st, kw)) == kw
  {
    var st' := Accept(st, kw);
    var c := Clamp(st.caret, |st.text|);
    var w := Word(st);
    var start := c - |w|;
    var s' := st'.text[..st'.caret];
    assert s'[..start] == st.text[..start];
    assert s'[start..] == kw;
    if start > 0 {
      assert s'[|s'| - |kw| - 1] == st.text[..c][c - |w| - 1];
    }
    assert IsMaximalRun(s', kw);
    MaximalRunUnique(s', kw);
  }

  /** The worked example: "foo.play" with the caret at the end, accepting "foo.stop". */
  lemma AcceptExample()
    ensures Accept(EditorState("foo.play", 8, 0, true), "foo.stop")
            == EditorState("foo.stop", 8, 0, false)
  {
    var st := EditorState("foo.play", 8, 0, true);
    assert IsMaximalRun("foo.play", "foo.play");
    MaximalRunUnique("foo.play", "foo.play");
    assert "foo.play"[..8] == "foo.play";
  }

  /** The effect that runs when the suggestion list is recomputed. */
  function ResetSelection(st: EditorState, sugg: seq<string>): (st': EditorState)
    ensures st'.text == st.text && st'.caret == st.caret
    ensures st'.visible <==> |sugg| > 0
    ensures |sugg| > 0 ==> st'.activeIndex == 0
  {
    if |sugg| > 0 then st.(activeIndex := 0, visible := true)
    else st.(visible := false)
  }

  /** ArrowDown: one step forward, wrapping to the top. */
  function NextIndex(i: nat, n: nat): (j: nat)
    requires n > 0
    ensures j < n
    ensures i + 1 < n ==> j == i + 1
    ensures i + 1 == n ==> j == 0
  {
    (i + 1) % n
  }

  /** ArrowUp: one step back, wrapping to the bottom. */
  function PrevIndex(i: nat, n: nat): (j: nat)
    requires n > 0
    ensures i <= n ==> j < n
    ensures i == 0 ==> j == n - 1
    ensures 0 < i ==> j == i - 1
  {
    if i == 0 then n - 1 else i - 1
  }

  /** ArrowUp undoes ArrowDown and the other way round. */
  lemma IndexStepsInverse(i: nat, n: nat)
    requires i < n
    ensures PrevIndex(NextIndex(i, n), n) == i
    ensures NextIndex(PrevIndex(i, n), n) == i
  {
  }

  /** `suggestions[activeIndex]`; reading past the end yields `undefined`, which the
      replacement turns into the text "undefined". */
  function Chosen(sugg: seq<string>, i: nat): (kw: string)
    ensures i < |sugg| ==> kw == sugg[i]
    ensures i >= |sugg| ==> kw == "undefined"
  {
    if i < |sugg| then sugg[i] else "undefined"
  }

  /** The key-down handler. */
  function KeyDown(st: EditorState, kws: seq<string>, key: Key): (res: KeyResult)
    ensures var n := |SuggestionsOf(st, kws)|;
            && (!st.visible || n == 0 ==> res == KeyResult(st, false))
            && (res.prevented <==> st.visible && n > 0 && key != Escape && key != Other)
            && (key != Enter && key != Tab ==>
                  res.state.text == st.text && res.state.caret == st.caret)
            && (key == Escape && st.visible && n > 0 ==> !res.state.visible)
            && ((key == ArrowDown || key == ArrowUp) && st.activeIndex < n ==>
                  res.state.activeIndex < n && res.state.visible == st.visible)
            && (st.visible && n > 0 ==>
                  && (key == ArrowDown ==> res.state == st.(activeIndex := NextIndex(st.activeIndex, n)))
                  && (key == ArrowUp ==> res.state == st.(activeIndex := PrevIndex(st.activeIndex, n)))
                  && (key == Enter || key == Tab ==>
                        res.state == Accept(st, Chosen(SuggestionsOf(st, kws), st.activeIndex)))
                  && (key == Escape ==> res.state == st.(visible := false))
                  && (key == Other ==> res.state == st))
  {
    var sugg := SuggestionsOf(st, kws);
    var n := |sugg|;
    if !st.visible || n == 0 then KeyResult(st, false)
    else
      match key
      case ArrowDown => KeyResult(st.(activeIndex := NextIndex(st.activeIndex, n)), true)
      case ArrowUp => KeyResult(st.(activeIndex := PrevIndex(st.activeIndex, n)), true)
      case Enter => KeyResult(Accept(st, Chosen(sugg, st.activeIndex)), true)
      case Tab => KeyResult(Accept(st, Chosen(sugg, st.activeIndex)), true)
      case Escape => KeyResult(st.(visible := false), false)
      case Other => KeyResult(st, false)
  }

  /** Recompute after a change from `prev` to `next`: the list, and with it the reset,
      is recomputed only when the current word differs. */
  function Sync(prev: EditorState, next: EditorState, kws: seq<string>): (st': EditorState)
    ensures st'.text == next.text && st'.caret == next.caret
    ensures Word(next) == Word(prev) ==> st' == next
    ensures Word(next) != Word(prev) ==>
              (st'.visible <==> |SuggestionsOf(next, kws)| > 0)
              && (st'.visible ==> st'.activeIndex == 0)
  {
    if Word(next) == Word(prev) then next
    else ResetSelection(next, SuggestionsOf(next, kws))
  }

  /** A change, click or key release reporting new text and caret. */
  function Edit(st: EditorState, kws: seq<string>, text: string, caret: nat): (st': EditorState)
    ensures st'.text == text && st'.caret == caret
    ensures CurrentWord(text, caret) == Word(st) ==>
              st'.activeIndex == st.activeIndex && st'.visible == st.visible
    ensures CurrentWord(text, caret) != Word(st) ==>
              (st'.visible <==> |Suggestions(CurrentWord(text, caret), kws)| > 0)
              && (st'.visible ==> st'.activeIndex == 0)
  {
    Sync(st, st.(text := text, caret := caret), kws)
  }

  /** A key press followed by the recomputation it triggers. */
  function Press(st: EditorState, kws: seq<string>, key: Key): (res: KeyResult)
    ensures res.prevented == KeyDown(st, kws, key).prevented
    ensures res.state.text == KeyDown(st, kws, key).state.text
    ensures res.state.caret == KeyDown(st, kws, key).state.caret
    ensures key != Enter && key != Tab ==> res.state == KeyDown(st, kws, key).state
  {
    var res := KeyDown(st, kws, key);
    KeyResult(Sync(st, res.state, kws), res.prevented)
  }

  /** A new keyword list always recomputes the suggestions. */
  function Reload(st: EditorState, kws: seq<string>): (st': EditorState)
    ensures st'.text == st.text && st'.caret == st.caret
    ensures st'.visible <==> |SuggestionsOf(st, kws)| > 0
    ensures st'.visible ==> st'.activeIndex == 0
  {
    ResetSelection(st, SuggestionsOf(st, kws))
  }

  /** While the popup is shown, the highlighted index is inside the list. */
  predicate Inv(st: EditorState, kws: seq<string>) {
    st.visible ==> st.activeIndex < |SuggestionsOf(st, kws)|
  }

  lemma InitialInv(kws: seq<string>)
    ensures Inv(Initial, kws)
  {
  }

  lemma SyncInv(prev: EditorState, next: EditorState, kws: seq<string>)
    requires Inv(next, kws) || Word(next) != Word(prev)
    ensures Inv(Sync(prev, next, kws), kws)
  {
  }

  lemma EditKeepsInv(st: EditorState, kws: seq<string>, text: string, caret: nat)
    requires Inv(st, kws)
    ensures Inv(Edit(st, kws, text, caret), kws)
  {
    var next := st.(text := text, caret := caret);
    if Word(next) == Word(st) {
      assert SuggestionsOf(next, kws) == SuggestionsOf(st, kws);
    }
  }

  lemma PressKeepsInv(st: EditorState, kws: seq<string>, key: Key)
    requires Inv(st, kws)
    ensures Inv(Press(st, kws, key).state, kws)
  {
    var next := KeyDown(st, kws, key).state;
    if Word(next) == Word(st) {
      assert SuggestionsOf(next, kws) == SuggestionsOf(st, kws);
    }
  }

  lemma ReloadEstablishesInv(st: EditorState, kws: seq<string>)
    ensures Inv(Reload(st, kws), kws)
  {
  }

  /** Under the invariant, Enter and Tab accept the highlighted suggestion, never `undefined`. */
  lemma AcceptsHighlighted(st: EditorState, kws: seq<string>, key: Key)
    requires Inv(st, kws)
    requires st.visible && |SuggestionsOf(st, kws)| > 0
    requires key == Enter || key == Tab
    ensures st.activeIndex < |SuggestionsOf(st, kws)|
    ensures KeyDown(st, kws, key).state == Accept(st, SuggestionsOf(st, kws)[st.activeIndex])
  {
  }

  /** Accepting a vocabulary keyword other than the word itself reopens the popup:
      the accepted keyword becomes the word and suggests at least itself. */
  lemma AcceptReopens(st: EditorState, kws: seq<string>, kw: string)
    requires |Word(st)| > 0 && |kw| > 0 && AllTokenChars(kw)
    requires kw in kws && kw != Word(st)
    ensures var next := Sync(st, Accept(st, kw), kws);
            next.visible && next.activeIndex == 0 && Word(next) == kw
  {
    var acc := Accept(st, kw);
    AcceptMakesKeywordTheWord(st, kw);
    var lower := Lower(kw);
    assert InTier(kw, lower, Prefix) by {
      assert Lower(kw)[..|lower|] == lower;
    }
    assert kw in Bucket(kws, lower, Prefix);
    assert |SuggestionsOf(acc, kws)| > 0;
  }

  /** Accepting a keyword that leaves the current word as it was, such as the word
      itself, hides the popup for good: no recomputation follows. */
  lemma AcceptSameWordStaysHidden(st: EditorState, kws: seq<string>, kw: string)
    requires |Word(st)| > 0
    requires Word(Accept(st, kw)) == Word(st)
    ensures !Sync(st, Accept(st, kw), kws).visible
  {
  }

  /** In particular, accepting the current word itself leaves the popup hidden. */
  lemma AcceptWordItselfStaysHidden(st: EditorState, kws: seq<string>)
    requires |Word(st)| > 0
    ensures !Sync(st, Accept(st, Word(st)), kws).visible
  {
    AcceptMakesKeywordTheWord(st, Word(st));
    AcceptSameWordStaysHidden(st, kws, Word(st));
  }
}
