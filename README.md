# Suggestion anchoring of the essay editor, in Dafny

The essay reviewer shows AI-generated editing suggestions inline in the essay. Each
suggestion names a piece of the essay (`originalText`) and its replacement
(`editedText`). The client-side utilities in `public/suggestionPositionManager.ts`
keep every suggestion anchored to the text as the essay changes. They:

- place each raw suggestion at the first occurrence of its original text (`open`),
  or mark it `stale` with anchor `(-1, -1)`;
- remap anchors across one contiguous replacement `[changeStart, changeEnd)`:
  an anchor before the edit is kept, one after it is shifted, and one that overlaps
  it goes `stale`;
- validate anchors against the current text, demoting to `stale` any anchor
  whose `slice` is no longer the original text;
- re-search the text for lost suggestions;
- run remap, validate and re-search after a text change, putting the stale
  suggestions last;
- convert character offsets to line numbers and columns.

The model has five modules:

- `JsStrings` (`js_strings.dfy`) models the JavaScript string operations the code
  calls. `indexOf` is the first occurrence or -1. `slice` normalises negative and
  out-of-range indices and gives `""` when start is not before end. `split` and
  `join` use a one-character separator. Split and join are proved to be inverses.
- `SuggestionPositions` (`suggestion_positions.dfy`) holds the suggestion records
  and the five array-mapping functions as pure functions over sequences.
- `EditTracking` (`edit_tracking.dfy`) says what remapping means for a real edit.
  An anchor that no edit touches keeps covering its original text after any number
  of edits. When that text is unambiguous, remapping ends where resolving against
  the final text does.
- `LinePositions` (`line_positions.dfy`) models `convertToLineBasedPositions`. Its
  `for` loop with the early `break` is a `while` loop with invariants, proved
  against a declarative description of the lines it finds.
- `Scenarios` (`scenarios.dfy`) holds concrete cases: the `"writting"` suggestion
  of the mock essay, and the inputs behind the findings below.

A JavaScript string is a sequence of UTF-16 code units; in the model each `char`
stands for one code unit under an injective encoding. That is sound here because
the model compares characters only for equality and against `'\n'`. Anchor offsets
are unbounded integers.

Three behaviours of the code differ from what an anchoring scheme with stickiness and
a recovery pass would be expected to do. The model follows the code in each case:

- Stickiness is never read. A zero-width insertion at the start of a non-empty
  anchor shifts the whole anchor, and one at its end leaves the anchor as it is, for
  `join_left` and `join_right` alike (`AdjustIgnoresStickiness`,
  `InsertionAtStartShifts`, `InsertionAtEndKeeps`).
- `findSuggestionsByText` moves a found anchor but keeps the status. A stale
  suggestion that is found again therefore stays `stale`.
- `handleTextChange` passes the length of the whole new text as the replacement
  length, not the length of the inserted text (see Findings). This only matters
  for a caller that reports a sub-range as the change. The caller at
  `public/editorExample.tsx:90`, the editor's text area, reports every change
  as the replacement of the whole old text `[0, |oldText|)`. There the two lengths
  agree (`WholeDocumentReplacementAgrees`), and since that range overlaps every
  anchor and recovery never reopens, every anchored suggestion with a non-empty
  original text comes out `stale` (`WholeDocumentReplacementStalesAll`).

## Model

| member | source | states |
|---|---|---|
| `JsStrings.FirstIndexOf` | public/suggestionPositionManager.ts:22 | `indexOf` is -1 exactly when the pattern occurs nowhere; otherwise it is an occurrence with none before it |
| `JsStrings.Slice` | public/suggestionPositionManager.ts:95 | `slice` of an in-range, non-reversed pair is the subsequence; a reversed pair of non-negative indices gives `""` |
| `JsStrings.Split` | public/suggestionPositionManager.ts:166 | `split("\n")` gives at least one line and no line contains the separator |
| `JsStrings.JoinSplit` | public/suggestionPositionManager.ts:166 | joining the split lines with the separator (the `join("\n")` of line 197) gives back the text |
| `JsStrings.SplitJoin` | public/suggestionPositionManager.ts:197 | splitting (the `split("\n")` of line 166) the `join("\n")` of separator-free lines gives back the lines |
| `SuggestionPositions.ComputeSuggestionPositions` | public/suggestionPositionManager.ts:17-43 | same length and order, raw fields copied; `open` exactly when the original text occurs; then the anchor is `[k, k+len)` at the first occurrence `k`, `join_right`, and covers the original text; otherwise `stale` with anchor `(-1,-1)` |
| `SuggestionPositions.AdjustSuggestionPositions` | public/suggestionPositionManager.ts:46-83 | raw fields kept; an anchor ending at or before `changeStart` is returned unchanged whatever its status; if it starts at or after `changeEnd` both bounds move by `newTextLength - (changeEnd - changeStart)` and width, stickiness and status are kept; any other anchor overlaps the edit and goes `stale` with its anchor untouched; no status other than `stale` is ever introduced |
| `SuggestionPositions.AdjustIgnoresStickiness` | public/suggestionPositionManager.ts:55-82 | the remap result does not depend on the anchor's stickiness |
| `SuggestionPositions.InsertionAtStartShifts` | public/suggestionPositionManager.ts:62-71 | a zero-width insertion at the start of a non-empty anchor shifts the whole anchor by the inserted length and keeps the status |
| `SuggestionPositions.InsertionAtEndKeeps` | public/suggestionPositionManager.ts:57-59 | a zero-width insertion at the end of an anchor leaves the suggestion unchanged |
| `SuggestionPositions.ValidateSuggestionPositions` | public/suggestionPositionManager.ts:86-102 | anchors and raw fields never change; a suggestion that passes the test (`start >= 0`, `end <= length`, `slice` equals the original text) is returned untouched; the result is `stale` exactly when the input was stale or fails the test; every non-stale result passes the test |
| `SuggestionPositions.MatchesTextIffAnchored` | public/suggestionPositionManager.ts:91-98 | for a non-reversed anchor the validation test holds exactly when the anchor lies in the text and covers the original text |
| `SuggestionPositions.ValidateIdempotent` | public/suggestionPositionManager.ts:86-102 | validating twice against the same text is validating once |
| `SuggestionPositions.FindSuggestionsByText` | public/suggestionPositionManager.ts:105-128 | raw fields kept; when the original text occurs, the anchor moves to its first occurrence with the original length, keeps stickiness and status and covers the text; when it does not, the anchor is kept and the status becomes `stale`; a stale suggestion is never reopened |
| `SuggestionPositions.ResolvedAreValid` | public/suggestionPositionManager.ts:90-101 | freshly resolved suggestions pass validation unchanged |
| `SuggestionPositions.RecoverResolvedIsIdentity` | public/suggestionPositionManager.ts:109-127 | re-searching freshly resolved suggestions changes nothing |
| `SuggestionPositions.PartitionPreservesRaws` | public/suggestionPositionManager.ts:150-151 | the stale and non-stale filters together hold every suggestion once (as multisets of raw fields) |
| `SuggestionPositions.RecombineRaws` | public/suggestionPositionManager.ts:150-155 | the non-stale suggestions followed by the re-searched stale ones hold every raw suggestion once (as multisets) |
| `SuggestionPositions.KeptAll` | public/suggestionPositionManager.ts:153-158 | when nothing is stale, the non-stale filter is the whole list, so both return paths agree |
| `SuggestionPositions.Reconcile` | public/suggestionPositionManager.ts:138-158 | for any replacement length: same length; a permutation of the input's raw fields; the non-stale validated suggestions come first in their order, then the re-searched stale ones; the status is `stale` exactly in the tail; every non-stale result passes validation against the new text |
| `SuggestionPositions.ReconcileKeepsValid` | public/suggestionPositionManager.ts:139-158 | a suggestion that is not stale after the remap and passes validation against the new text is among the results |
| `SuggestionPositions.HandleTextChange` | public/suggestionPositionManager.ts:131-159 | with the whole new text's length as the replacement length: same length, a permutation of the input's raw fields, the non-stale suggestions first in their original relative order and `stale` exactly in the tail, and every non-stale result passes validation against the new text |
| `SuggestionPositions.HandleTextChangeIgnoresOldText` | public/suggestionPositionManager.ts:131-137 | `oldText` does not affect the result |
| `SuggestionPositions.HandleTextChangeCorrected` | public/suggestionPositionManager.ts:139-144 | the corrected pipeline keeps the length, permutes the raw fields and leaves only validated suggestions non-stale |
| `EditTracking.Apply` | public/editorExample.tsx:65-68 | the splice `slice(0, from) + inserted + slice(to)` changes the length by `inserted - (to - from)`, the `lengthDifference` of public/suggestionPositionManager.ts:52-53, and keeps the text before `from` |
| `EditTracking.MapThroughKeepsAnchored` | public/suggestionPositionManager.ts:55-71 | an anchor wholly before or after a replacement still covers its original text in the edited text after the remap, with its status kept |
| `EditTracking.MapAllKeepsAnchored` | public/suggestionPositionManager.ts:46-83 | remapping through any sequence of edits that never touch the anchor keeps it on its original text in the final text, with status, raw fields and stickiness kept |
| `EditTracking.MapAllAgreesWithResolve` | public/suggestionPositionManager.ts:17-83 | for a found suggestion untouched by every edit and unambiguous in the final text, remapping edit by edit equals resolving against the final text |
| `EditTracking.HandleTextChangeKeepsEarlier` | public/suggestionPositionManager.ts:139-158 | a non-stale suggestion anchored on its text and ending before the edit comes out of `handleTextChange` unchanged |
| `EditTracking.HandleTextChangeCorrectedKeepsUntouched` | public/suggestionPositionManager.ts:139-158 | with the corrected length, every non-stale anchored suggestion that the edit does not touch comes out remapped with its status |
| `LinePositions.LocateLines` | public/suggestionPositionManager.ts:170-188 | the loop's lines satisfy the line-span description: the end line is the first line whose end test holds (0 if none); the start line is the line whose start test holds among those visited up to the break (0 if none); both lie within the lines |
| `LinePositions.StartFitsUnique` | public/suggestionPositionManager.ts:177-182 | at most one line passes the start test |
| `LinePositions.LineSpanUnique` | public/suggestionPositionManager.ts:174-188 | the line-span description determines the start and end line |
| `LinePositions.LineSpanInRange` | public/suggestionPositionManager.ts:170-188 | for a non-empty list of lines both lines are valid line indices |
| `LinePositions.JoinPrefixLength` | public/suggestionPositionManager.ts:197 | the first `k >= 1` lines joined by newlines are one character shorter than the offset of line `k` |
| `LinePositions.AsWrittenColumnShortBy` | public/suggestionPositionManager.ts:196-198 | the column formula as written equals the true column on lines 0 and 1 and is `k - 1` too small on line `k` |
| `LinePositions.ColumnCorrect` | public/suggestionPositionManager.ts:196-198 | the corrected column of a position on line `k` lies within the line and names the character at that position |
| `LinePositions.ConvertToLineBasedPositions` | public/suggestionPositionManager.ts:162-202 | same length and order; each suggestion is kept as is (start, end, stickiness, status); start and end lines satisfy the line-span description and lie within the split lines; the columns are the formula as written |
| `Scenarios.WrittingIsResolved` | public/mockData.ts:40-45 | `"writting"` in `"I really like writting essays."` resolves to anchor `[14, 22)`, `join_right`, `open` |
| `Scenarios.OverlapGoesStale` | public/suggestionPositionManager.ts:73-79 | an anchor at `[10, 18)` goes stale under an edit of `[5, 15)`, anchor kept |
| `Scenarios.ThirdLineColumn` | public/suggestionPositionManager.ts:196-198 | in `"a\nb\nc"` position 4 is on line 2; the formula as written gives column -1 where the true column is 0 |
| `Scenarios.EditBeforeAnchorMakesItStale` | public/suggestionPositionManager.ts:139-144 | replacing `a` by `x` in `"ab"` leaves the suggestion on `b` stale rather than open in place |
| `Scenarios.WholeDocumentReplacementAgrees` | public/editorExample.tsx:90 | for the whole-document replacement the editor reports, `handleTextChange` and the corrected version give the same result |
| `Scenarios.WholeDocumentReplacementStalesAll` | public/suggestionPositionManager.ts:139-158 | after a whole-document replacement every suggestion anchored on a non-empty original text comes out `stale` |
| `Scenarios.CorrectedKeepsItOpen` | public/suggestionPositionManager.ts:139-144 | with the corrected length the same edit leaves the suggestion open in place |

## Findings

| source | as written | input that shows it | evidently intended | confidence | as-written member | corrected member |
|---|---|---|---|---|---|---|
| public/suggestionPositionManager.ts:196-198 | column = offset − (length of the earlier lines joined by `"\n"` + line number), which subtracts `k - 1` extra on line `k` | text `"a\nb\nc"`, anchor start 4 (the `c`): start line 2, column −1 | column = offset − start of the line, here 0 | high; not executed | `LinePositions.AsWrittenColumnShortBy` (with `Scenarios.ThirdLineColumn`) | `LinePositions.ColumnCorrect` |
| public/suggestionPositionManager.ts:139-144 | `handleTextChange` passes the length of the whole new text as the replacement length | old `"ab"`, suggestion `"b"` at `[1, 2)` open, edit `[0, 1)` → `"x"`, new `"xb"`: the anchor shifts to `[2, 3)`, fails validation, is re-found at `[1, 2)` and stays stale | the replacement length `|newText| − |oldText| + (changeEnd − changeStart)`, which keeps the suggestion open at `[1, 2)` | medium: affects only callers that report a sub-range as the change; the caller at public/editorExample.tsx:90 replaces the whole text, where both lengths agree; not executed | `Scenarios.EditBeforeAnchorMakesItStale` | `SuggestionPositions.HandleTextChangeCorrected` (with `EditTracking.HandleTextChangeCorrectedKeepsUntouched`) |

`ConvertToLineBasedPositions` still returns the columns as written. The corrected
column, `LinePositions.Column`, is there for any caller that needs the true column.

## Left out

- The approve/reject/undo/redo store and its history: it is not implemented.
  `types/essay.ts` only declares a change-record type. In
  `public/editorExample.tsx:51-59` approval and rejection only set the status.
  `app/essay/[id]/EditorClient.tsx:207-216` leaves approval and rejection as TODOs,
  and its Undo and Redo buttons at lines 226-232 have no handlers.
- `applySuggestion` in `public/editorExample.tsx` and the rest of that React
  component: it is user-interface state, not part of these utilities.
- CodeMirror decorations, pages, components, authentication, database and e-mail
  code: rendering, I/O and foreign libraries.
- JavaScript numbers: offsets are modelled as unbounded integers. Fractional,
  `NaN` or very large anchor values are not modelled.
