# Keyword-autocomplete editor: a Dafny model

This project models the editing logic of an ActionScript 2 editor with keyword
autocompletion, and proves properties of that model. The editor is a textarea. As
the user types, it takes the *current word*: the longest run of `[A-Za-z0-9_.]`
characters that ends at the caret. It then ranks the keyword *vocabulary* against
that word, case-insensitively. Keywords that start with the word come first, then
keywords that merely contain it. Each group keeps vocabulary order, and at most
twelve are shown. The arrow keys move a highlight with wrap-around. Enter or Tab
replaces the current word by the highlighted keyword, and Escape hides the list.
The vocabulary comes from a keyword document. The `name` attribute of each keyword
element has doubled quotes collapsed and white space trimmed. The names are then
deduplicated and sorted. A load that was cancelled before it settled updates
nothing.

Modules:

- `Text`: the token alphabet, ASCII lower-casing, `startsWith` / `includes`, and the
  lexicographic order `Less` (a strict total order).
- `Token`: the current word (`TrailingRun`, `CurrentWord`) and its maximality.
- `Ranking`: the two ranking buckets (`Bucket`), the suggestion list (`Suggestions`,
  and the loop `Suggest`), and the ranking, order and completeness lemmas.
- `Editor`: the editor state, acceptance (`Accept`), the selection reset
  (`ResetSelection`) and the key handler (`KeyDown`). Re-rendering is modelled by
  `Sync`. The list is recomputed, and the highlight reset, only when the current
  word changes or a new vocabulary arrives. The invariant `Inv` says the highlight
  stays inside the list while the list is shown.
- `Keywords`: name normalisation (`Collapse`, `Trim`, `Normalise`), the vocabulary
  (`Vocabulary`, and the two loops `CollectKeywords` / `SortedList` combined in
  `LoadVocabulary`), one load's outcome (`Load`), and the cancelled-guarded
  completion (`Complete`).
- `Scenarios`: worked examples, stated for all inputs of their shape where possible.

Behaviours of the code worth noting:

- Ranking `"on"` against `["on", "onClipEvent", "MovieClip", "Math"]` gives
  `["on", "onClipEvent"]`, because "MovieClip" does not contain "on".
  `Scenarios.RankingExample` proves this.
- A name written `""Math""` normalises to `"Math"` with one pair of quotes left,
  because the code collapses each doubled quote. It does not become bare `Math`, so
  it does not merge with a plain `Math` entry. `Keywords.NormaliseQuotedName`
  proves this. In general, a run of quotes is paired from the left, and an odd last
  quote stays single (`Keywords.CollapseOddRun`).
- Accepting a suggestion hides the list. Suppose the keyword is made of token
  characters, comes from the vocabulary and differs from the current word. Then it
  becomes the new current word, so the list is recomputed and shown again with the
  first entry highlighted (`Editor.AcceptReopens`). If accepting leaves the current
  word unchanged, for example when the word itself is accepted, nothing is
  recomputed and the list stays hidden (`Editor.AcceptSameWordStaysHidden`).
- Enter and Tab read `suggestions[activeIndex]`. An index past the end would read
  `undefined`, which the replacement inserts as the text "undefined" (`Editor.Chosen`).
  `Editor.AcceptsHighlighted` and the invariant lemmas show that this cannot happen:
  while the list is shown, the highlight stays inside it.

## Model

| member | source | states |
|---|---|---|
| Token.TrailingRun | src/components/AutocompleteEditor.jsx:15-16 | the result is a suffix of the text, made only of `[A-Za-z0-9_.]` characters, and the character before it (if any) is not one: the match of `([A-Za-z0-9_.]+)$`, or "" when there is none |
| Token.MaximalRunUnique | src/components/AutocompleteEditor.jsx:15-16 | only one suffix has that property, so the token is well defined and equals the computed one |
| Token.CurrentWord | src/components/AutocompleteEditor.jsx:13-17 | the current word is the maximal token run of the text before the caret, where a caret past the end keeps the whole text as `slice` does |
| Token.CurrentWordEmptyIff | src/components/AutocompleteEditor.jsx:13-17 | the current word is empty exactly when the caret is at offset 0 or follows a non-token character |
| Ranking.MatchesIsOneTier | src/components/AutocompleteEditor.jsx:28-33 | a keyword whose lower-cased form contains the word is in exactly one bucket: starts-with or contains-only |
| Ranking.Bucket | src/components/AutocompleteEditor.jsx:27-34 | a bucket holds exactly the vocabulary keywords of its tier, and is no longer than the vocabulary |
| Ranking.BucketIsSubsequence | src/components/AutocompleteEditor.jsx:27-34 | each bucket keeps the vocabulary's relative order |
| Ranking.BucketAppend | src/components/AutocompleteEditor.jsx:27-34 | the bucket of a concatenation is the concatenation of the buckets: keywords earlier in the vocabulary come earlier in the bucket |
| Ranking.BucketEmpty | src/components/AutocompleteEditor.jsx:27-34 | a bucket is empty when no keyword belongs to its tier |
| Ranking.Suggestions | src/components/AutocompleteEditor.jsx:19-37 | at most twelve suggestions; each is a vocabulary keyword that contains the word case-insensitively; none for an empty word or an empty vocabulary |
| Ranking.Suggest | src/components/AutocompleteEditor.jsx:19-37 | the push loop over the vocabulary, then the cut to twelve, computes exactly `Suggestions` |
| Ranking.SuggestionsRanked | src/components/AutocompleteEditor.jsx:23-36 | the buckets are order-keeping and disjoint; the list is a prefix of starts-with followed by contains-only, of length min(total, 12); no starts-with match follows a contains-only one |
| Ranking.SuggestionsComplete | src/components/AutocompleteEditor.jsx:19-37 | when at most twelve keywords match, every matching keyword is suggested |
| Editor.Accept | src/components/AutocompleteEditor.jsx:54-67 | with no current word, nothing changes; otherwise the current word is replaced by the keyword, the text before the word and after the caret is kept, the caret lands right after the keyword, and the list is hidden |
| Editor.AcceptMakesKeywordTheWord | src/components/AutocompleteEditor.jsx:57-63 | after accepting a keyword of token characters, the current word is that keyword |
| Editor.AcceptExample | src/components/AutocompleteEditor.jsx:54-67 | `foo.play` with the caret at the end, accepting `foo.stop`, gives `foo.stop` with the caret at 8 and the list hidden |
| Editor.ResetSelection | src/components/AutocompleteEditor.jsx:39-46 | after a recomputation the list is shown exactly when it is non-empty, then with the first entry highlighted; text and caret are untouched |
| Editor.NextIndex | src/components/AutocompleteEditor.jsx:84 | ArrowDown stays in range, steps forward, and wraps from the last entry to the first |
| Editor.PrevIndex | src/components/AutocompleteEditor.jsx:87-89 | ArrowUp stays in range, steps back by one, and wraps from the first entry to the last |
| Editor.IndexStepsInverse | src/components/AutocompleteEditor.jsx:82-89 | ArrowUp undoes ArrowDown, and the other way round |
| Editor.KeyDown | src/components/AutocompleteEditor.jsx:79-97 | with the list hidden or empty every key is ignored and not prevented; the default is prevented exactly for the arrows, Enter and Tab; with the list shown, ArrowDown and ArrowUp step the highlight by `NextIndex` / `PrevIndex`, Enter and Tab accept `suggestions[activeIndex]`, Escape only hides, and other keys change nothing; only Enter and Tab touch text and caret |
| Editor.Chosen | src/components/AutocompleteEditor.jsx:93 | the highlighted entry when the index is in range, and otherwise the text "undefined" that `replace` inserts for an `undefined` keyword |
| Editor.Sync | src/components/AutocompleteEditor.jsx:13-46 | text and caret are the new ones; when the current word is unchanged nothing is recomputed and the state is kept; otherwise the list is shown exactly when the new word has suggestions, then with the first entry highlighted |
| Editor.Edit | src/components/AutocompleteEditor.jsx:48-52 | a change, click or key release sets text and caret; the highlight and visibility are kept when the current word is unchanged and reset otherwise |
| Editor.Press | src/components/AutocompleteEditor.jsx:79-97 | a key press with its recomputation keeps the key handler's prevented flag, text and caret; keys other than Enter and Tab never trigger a recomputation |
| Editor.Reload | src/components/AutocompleteEditor.jsx:19-46 | a new vocabulary keeps text and caret, shows the list exactly when it is non-empty, and then highlights the first entry |
| Editor.InitialInv | src/components/AutocompleteEditor.jsx:7-10 | the freshly mounted editor satisfies the highlight invariant |
| Editor.SyncInv | src/components/AutocompleteEditor.jsx:39-46 | a recomputation re-establishes the highlight invariant |
| Editor.EditKeepsInv | src/components/AutocompleteEditor.jsx:48-52 | a text change keeps the highlight inside the shown list |
| Editor.PressKeepsInv | src/components/AutocompleteEditor.jsx:79-97 | a key press with its recomputation keeps the highlight inside the shown list |
| Editor.ReloadEstablishesInv | src/components/AutocompleteEditor.jsx:19-46 | a new vocabulary establishes the highlight invariant |
| Editor.AcceptsHighlighted | src/components/AutocompleteEditor.jsx:90-93 | under the invariant, Enter and Tab accept the highlighted suggestion itself, so the out-of-range read never happens |
| Editor.AcceptReopens | src/components/AutocompleteEditor.jsx:54-67 | accepting a vocabulary keyword made of token characters that differs from the current word hides the list, but the recomputation shows it again with the first entry highlighted |
| Editor.AcceptSameWordStaysHidden | src/components/AutocompleteEditor.jsx:54-67 | when accepting leaves the current word unchanged, no recomputation follows and the list stays hidden |
| Editor.AcceptWordItselfStaysHidden | src/components/AutocompleteEditor.jsx:54-67 | accepting the current word itself leaves the list hidden |
| Keywords.Collapse | src/hooks/useAs2Keywords.js:32 | collapsing doubled quotes never lengthens a name |
| Keywords.CollapseDoubleQuotes | src/hooks/useAs2Keywords.js:32 | collapsing undoes quote doubling, for every name |
| Keywords.CollapseEvenRun | src/hooks/useAs2Keywords.js:32 | a run of `2m` quotes collapses to `m` quotes, whatever follows |
| Keywords.CollapseOddRun | src/hooks/useAs2Keywords.js:32 | a run of `2m+1` quotes before a non-quote collapses to `m+1` quotes: pairs are taken from the left, and the last quote stays single |
| Keywords.CollapseIdentity | src/hooks/useAs2Keywords.js:32 | a name with no two adjacent quotes is unchanged by the collapse |
| Keywords.Trim | src/hooks/useAs2Keywords.js:32 | the trimmed name has no white space at either end and is the original with only white space cut from both ends |
| Keywords.TrimPadded | src/hooks/useAs2Keywords.js:32 | trimming recovers any trimmed text from any white-space padding |
| Keywords.TrimIdempotent | src/hooks/useAs2Keywords.js:32 | trimming twice is trimming once |
| Keywords.Normalise | src/hooks/useAs2Keywords.js:32 | a normalised name has no white space at either end and is no longer than the raw one |
| Keywords.NormaliseQuotedName | src/hooks/useAs2Keywords.js:32 | `""Math""` normalises to `"Math"` |
| Keywords.Cleaned | src/hooks/useAs2Keywords.js:28-36 | a missing or empty name adds nothing; otherwise the name adds its normalised form exactly when that is non-empty |
| Keywords.KeywordsAreNormalisedNames | src/hooks/useAs2Keywords.js:27-37 | the keywords are exactly the non-empty normalised forms of the present names, so missing and empty names add nothing, and every keyword is trimmed |
| Keywords.CleanedPadded | src/hooks/useAs2Keywords.js:28-36 | a name with no doubled quote that is a keyword padded with white space cleans to that keyword |
| Keywords.SortedDistinct | src/hooks/useAs2Keywords.js:25-39 | a strictly sorted list has no duplicates |
| Keywords.Insert | src/hooks/useAs2Keywords.js:39 | inserting into a strictly sorted list keeps it strictly sorted and adds exactly the new element |
| Keywords.SortedUnique | src/hooks/useAs2Keywords.js:39 | two strictly sorted lists with the same elements are equal, so the sorted order is unique |
| Keywords.Vocabulary | src/hooks/useAs2Keywords.js:25-39 | the vocabulary is strictly sorted and holds exactly the keywords of the document |
| Keywords.CollectKeywords | src/hooks/useAs2Keywords.js:25-37 | the loop's set holds exactly the keywords of the document |
| Keywords.SortedList | src/hooks/useAs2Keywords.js:39 | listing the set gives a strictly sorted list of exactly its elements |
| Keywords.LoadVocabulary | src/hooks/useAs2Keywords.js:25-39 | the set-then-sort loop yields a strictly sorted list of exactly the document's keywords, namely `Vocabulary` |
| Keywords.Load | src/hooks/useAs2Keywords.js:14-39 | a load succeeds exactly for a response with an ok status, and then yields the document's vocabulary, which is strictly sorted; a non-ok status fails with `HTTP <status>`; a transport failure fails with its own message |
| Keywords.Complete | src/hooks/useAs2Keywords.js:41-53 | a cancelled load changes nothing; otherwise loading ends, and success sets the keywords and clears the error while failure keeps the keywords and records the error |
| Keywords.CompleteKeepsSorted | src/hooks/useAs2Keywords.js:39-44 | the exposed keyword list stays strictly sorted across completions |
| Keywords.NotFoundScenario | src/hooks/useAs2Keywords.js:15-16 | a 404 response leaves no keywords, stops loading and reports `HTTP 404` |
| Scenarios.VocabularySingleton | src/hooks/useAs2Keywords.js:25-39 | names that all clean to one keyword or to nothing give the one-entry vocabulary |
| Scenarios.CopyCleansToKeyword | src/hooks/useAs2Keywords.js:28-36 | a bare or white-space-padded copy of a keyword cleans to it; a missing or empty name cleans to nothing |
| Scenarios.PaddedCopiesMerge | src/hooks/useAs2Keywords.js:25-39 | bare and padded copies of one keyword, mixed with missing or empty names, merge into the single vocabulary entry |
| Scenarios.AbsentCharNoMatch | src/components/AutocompleteEditor.jsx:31 | a word with a character absent from the keyword is not contained in it |
| Scenarios.RankingExample | src/components/AutocompleteEditor.jsx:19-37 | ranking `on` against `on`, `onClipEvent`, `MovieClip`, `Math` gives `on`, `onClipEvent` |
| Text.LessTotal | src/hooks/useAs2Keywords.js:39 | any two different names are ordered one way or the other |
| Text.LessTransitive | src/hooks/useAs2Keywords.js:39 | the name order is transitive |

## Left out

- Fetching and parsing the keyword document. The `fetch` call and the XML parser are
  I/O. A response is given as its `ok` flag, its status and the sequence of `name`
  attributes of its keyword elements, where a missing attribute is `None`. A
  transport failure is given as its message. The parser's error document for
  malformed XML is not modelled.
- `console.error` and the error object itself. The hook stores the thrown `Error`,
  and the model stores its message.
- The `setLoading(true)` at the start of a load. The model starts from the state
  where loading is already true, which is the hook's initial state.
- React's scheduling. Memoisation and effects are modelled by `Editor.Sync`, which
  recomputes when the current word (compared by value) differs, and by
  `Editor.Reload` for a new vocabulary. Batched updates and render timing are not
  modelled.
- The deferred caret placement (`requestAnimationFrame`, `focus`,
  `setSelectionRange`). It is a side effect on the textarea, and the model's caret
  is already the new caret.
- Rendering, styling and mouse handling. A click on a suggestion is `Editor.Accept`
  with that keyword. `src/App.jsx` only mounts the editor and is not part of this
  model.
- Keywords.SortedList: orders by character codes (`Text.Less`), not by
  `localeCompare`. Locale collation is not specified by any standard the code pins
  down.
- Text.Lower: lower-cases ASCII letters only. Unicode case mapping beyond ASCII is
  not modelled.
- Token.CurrentWord: a character stands for one UTF-16 code unit. Caret offsets
  across characters outside the Basic Multilingual Plane are not modelled.
- Editor.Accept: `$` patterns in the keyword are not interpreted. `replace` would
  expand `$&`, `$1` and similar patterns in a keyword, and the model inserts the
  keyword literally.
