# Extended Search: a verified model of the match-and-annotate engine

Extended Search is a browser content script. It keeps a list of search rows. Each row has an
id, a term, a colour, a case rule, a match count and a current index. The script highlights
every occurrence of every term on the page. It wraps each occurrence in a coloured span that
carries the row's id. The user can step through one row's spans with wrap-around, and the
current span is marked active. Clearing turns every span back into text and normalizes the
text nodes.

This project models that engine in Dafny (`content.js`) and proves properties of the model:

- `colors.dfy`: `hexToRgba` channels and `getContrastColor`, with JavaScript's `parseInt(s, 16)`.
- `escape.dfy`: `escapeRegExp`, and a reading of the escaped pattern back to its literal.
- `matching.dfy`: the search the global regex performs, and `split` with a capturing group.
- `dom.dfy`: the page as a tree of text nodes, spans (`Highlight`) and elements. One flag marks
  the tool's own panel. The file also holds the per-row span flags behind `querySelectorAll`.
- `scan.dfy`: one `highlightTerm` pass. It is a recursive rewrite (`ScanNodes`), and the
  two-phase "collect, then replace" form (`Substitute`) is proved equal to it.
- `clear.dfy`: the combined effect of the `clearHighlights` loop, and the round trip back to
  the unhighlighted page.
- `registry.dfy`: the row records, id allocation, removal, lookup, the index clamp, the
  navigation wrap and the count label.
- `engine.dfy`: the class `MultiSearch`. It holds the registry and the page as fields, and its
  methods follow the script's functions. Where a loop is collapsed into one step, "## Left out"
  says so.
- `examples.dfy`: worked cases on concrete inputs.

The class invariant `Valid` holds after every operation:

- ids are unique;
- each row has exactly `count` spans, and only the span at its index is active;
- no span belongs to a row that has gone;
- the page's text is the original text;
- when the original page was normalized, clearing gives it back exactly.

`Wellformed` is the part of `Valid` that also holds in the middle of a search.

Ids are not reserved. `addSearchRow` issues the largest id plus one, so removing the row with
the largest id and then adding a row issues that id again (`Registry.IdReissued`,
`Examples.IdReuse`). This is harmless: `removeRow` runs a full search, which clears every span
first.

## Model

| member | source | states |
|---|---|---|
| Colors.HexToRgb | content.js:25-36 | each channel is in 0..255; a string that fails the `#rgb`/`#rrggbb` test gives the yellow fallback |
| Colors.HexToRgbChannels | content.js:28-33 | each channel is the byte written by its own pair of hex digits |
| Colors.ShortFormDoubles | content.js:29-31 | `#abc` is read as `#aabbcc`, so each channel is its digit times 17 |
| Colors.ParseHexPair | content.js:42-48 | `parseInt` of two hex digits is their byte value |
| Colors.IsHexColor | content.js:27 | the test `/^#([A-Fa-f0-9]{3}){1,2}$/`: a `#` and three or six hex digits |
| Colors.ParseHex | content.js:42-48 | `parseInt(s, 16)`: leading white space, an optional sign and an optional `0x` are skipped, the longest run of hex digits is read, and no digit gives NaN |
| Colors.ContrastColor | content.js:38-52 | a string of any length other than 4 or 7 gets white text |
| Colors.ContrastMatchesChannels | content.js:38-52 | on a hex colour the text is black exactly when the YIQ brightness of the highlight's own channels reaches 128 |
| RegExpEscape.EscapeThenRead | content.js:499-501 | the escaped term is a literal pattern, and what it matches is the term itself |
| RegExpEscape.EscapeAppend | content.js:499-501 | escaping works character by character and distributes over concatenation |
| RegExpEscape.EscapeRegExp | content.js:499-501 | the term with a backslash put before each special character; the result is at least as long as the term and at most twice as long |
| RegExpEscape.EscapeIdentity | content.js:499-501 | escaping leaves a term unchanged exactly when none of its characters is special |
| Matching.FindFromLeftmost | content.js:412 | the search returns the leftmost occurrence at or after the start, and misses only when there is none |
| Matching.HasMatch | content.js:423 | `match` succeeds exactly when the term occurs somewhere in the text |
| Matching.IsMatchPart | content.js:446-448 | the comparison of a part with the term: equality when case-sensitive, equality after folding otherwise; a matching part has the term's length |
| Matching.MatchPartAt | content.js:446-448 | the part comparison under the row's case rule agrees with the matcher on that stretch of text |
| Matching.Split | content.js:438 | `split` with a capturing group: the text before the leftmost occurrence, the occurrence, then the split of what follows it |
| Matching.SplitParts | content.js:438-448 | the split has odd length and concatenates back to the text; a part compares equal to the term exactly at odd positions; no even part contains the term |
| Matching.SplitIsLeftmost | content.js:438 | the split is the leftmost, non-overlapping decomposition |
| Matching.LeftmostSplitIsUnique | content.js:438 | there is only one leftmost, non-overlapping decomposition, so the split is determined by it |
| Matching.SplitHasMatch | content.js:423-438 | a text matches exactly when its split has more than one part |
| Dom.Owned | content.js:369 | the spans of one row as `querySelectorAll` lists them, in document order, each as its active flag |
| Dom.SetFlagAt | content.js:370-376 | the page with the k-th span of one row given the active flag b, counting in document order |
| Dom.Marks | content.js:370-376 | the flags `updateActiveState` sets: as many as spans, true only at the current index |
| Dom.SetFlagOwned | content.js:370-376 | setting one span's flag changes that flag of the row and nothing else of the row |
| Dom.SetFlagOthers | content.js:368-376 | the spans of other rows are unaffected |
| Dom.StripOwned | content.js:370-376 | removing the active markers keeps every span of every row, inactive |
| Scan.ScanNodes | content.js:414-468 | one `highlightTerm` pass as a recursive rewrite: each eligible text node holding the term becomes its replacement; spans and elements are entered, except the panel and SCRIPT or STYLE children |
| Scan.Replacement | content.js:437-467 | the nodes a text node becomes: the painted split when a part matches, the text itself otherwise |
| Scan.Leaves | content.js:414-418 | the text nodes the TreeWalker visits, in document order, each with the context the skip tests read |
| Scan.Substitute | content.js:433-468 | the collected fragments put in place of the picked leaves, one after another in document order |
| Scan.SubstituteScan | content.js:414-468 | replacing the collected leaves by their fragments in document order gives the recursive scan |
| Scan.ScanText | content.js:437-467 | highlighting never changes the page's text |
| Scan.ScanOwnedSelf | content.js:428-460 | starting with none, the row gets one inactive span per counted match, in document order |
| Scan.ScanOwnedOthers | content.js:450-460 | a scan adds spans of its own row only; other rows' spans are untouched |
| Scan.ScanStrip | content.js:450-460 | a scan commutes with removing the active markers: the spans it adds are inactive |
| Scan.PanelUntouched | content.js:419 | the tool's panel is never highlighted |
| Scan.LeafUntouched | content.js:419-427 | a leaf under SCRIPT or STYLE, in the panel, or without the term stays as it is |
| Scan.LeafReplaced | content.js:437-467 | an eligible leaf holding the term becomes the painted split of its text |
| Scan.ReplacementPaints | content.js:439-467 | a collected leaf always has a matching part, so it is replaced and the new nodes include a span |
| Clear.ClearNodes | content.js:393-399 | the page after the clearing loop: every span becomes one text node of its text, and each child list that held a span is normalized |
| Clear.ClearOne | content.js:395-397 | one node after clearing: a span becomes a text node of its text, an element has its children cleared |
| Clear.Merge | content.js:398 | `normalize` on one child list: empty text nodes go and adjacent text nodes are joined |
| Clear.ClearText | content.js:393-399 | clearing keeps the page's text |
| Clear.ClearRemovesAll | content.js:393-399 | after clearing no span is left anywhere |
| Clear.ClearIdempotent | content.js:393-399 | clearing a cleared page changes nothing |
| Clear.ClearFree | content.js:393-399 | clearing a page without spans changes nothing |
| Clear.ClearNormalizes | content.js:398 | each parent that held a span ends with no empty and no adjacent text nodes |
| Clear.MergeClean | content.js:398 | `normalize` leaves no empty text node and no two adjacent text nodes |
| Clear.MergeText | content.js:398 | `normalize` keeps the text |
| Clear.ScanClearTrue | content.js:393-399 | clearing undoes one scan when the parent is normalized |
| Clear.ScanKeepsClear | content.js:393-399 | on a normalized page, clearing after a scan gives what clearing before it gave |
| Clear.ScanKeepsInv | content.js:437-467 | a scan keeps the page normalizable back to itself |
| Clear.ClearStrip | content.js:395-398 | active flags play no part in clearing |
| Registry.NewRecord | content.js:226 | a new row keeps its id and colour, is case-sensitive, takes no part in the search and shows an empty label |
| Registry.Rescanned | content.js:472-478 | the row after a scan: the count is the number of matches, the index is clamped to them, everything else stays |
| Registry.MaxId | content.js:224 | the maximum is at least every id and is one of them |
| Registry.NewId | content.js:224 | the new id is greater than every id present |
| Registry.NewIdFresh | content.js:224-226 | appending the new row keeps ids unique |
| Registry.IdReissued | content.js:224-239 | removing the newest row and adding again issues the same id |
| Registry.Remove | content.js:239 | exactly the rows with another id remain |
| Registry.RemoveAppend | content.js:239 | removal keeps the order of the remaining rows |
| Registry.RemoveAbsent | content.js:239 | removing an unknown id changes nothing |
| Registry.RemoveKeepsUnique | content.js:239 | removal keeps ids unique |
| Registry.Active | content.js:385 | exactly the rows with a non-empty term are scanned |
| Registry.Find | content.js:248 | `find` returns the first row with the id, or nothing when no row has it |
| Registry.FindUnique | content.js:248 | with unique ids `find` returns the one row holding the id |
| Registry.Clamp | content.js:474-478 | after a scan the index is unset or inside the matches |
| Registry.ClampCases | content.js:476-477 | an index inside the matches survives; one past them restarts at the first |
| Registry.ClampKeepsUnset | content.js:474-478 | an unset index stays unset |
| Registry.NextIndex | content.js:342-349 | navigation always lands on an existing span |
| Registry.NavigateFromUnset | content.js:342-349 | from the unset index, next goes to the first span and previous to the last |
| Registry.NavigateCycles | content.js:342-349 | one step in either direction is a step around a cycle of the spans |
| Registry.Decimal | content.js:492 | the printed number is a non-empty string of digits |
| Registry.DecimalValue | content.js:492 | the printed number reads back as the number |
| Registry.CountLabel | content.js:490-495 | the label `current/count`, with current the index plus one or 0 when unset; it is empty exactly when there is no match |
| Registry.CountLabelRoundTrip | content.js:489-492 | the label `current/count` reads back as the position shown and the count |
| Registry.CountLabelEmpty | content.js:493-494 | with no match the label is empty |
| Engine.ScanAll | content.js:385-390 | the page after `highlightTerm` of each given row in registry order, spans left inactive |
| Engine.ScanAllText | content.js:382-391 | any sequence of row scans keeps the page's text |
| Engine.ScanAllKeepsPage | content.js:382-399 | on a normalized page, scans of any rows keep what clearing gives back |
| Engine.SearchThenClear | content.js:382-399 | highlighting any rows and then clearing restores a normalized page exactly |
| Engine.ScanAllZero | content.js:401-404 | counts take no part in the scan |
| Engine.ActiveZero | content.js:385-404 | zeroing counts and filtering the active rows commute |
| Engine.ActiveKeepsUnique | content.js:385 | the scanned rows have unique ids |
| Engine.ActiveIds | content.js:385 | a row is scanned exactly when its term is non-empty |
| Engine.SearchStep | content.js:387-389 | highlighting one more row advances the search by exactly that row |
| Engine.SearchComplete | content.js:382-391 | once every active row is highlighted, each row's spans match its count and index and inactive rows have none |
| Engine.PaintParts | content.js:441-463 | the fragment is the painted split and the number added is the number of matching parts |
| Engine.BuildFragments | content.js:428-468 | one fragment per collected leaf, and `matchCount` is the total number of matches |
| Engine.MultiSearch.constructor | content.js:7 | one empty row with id 0 over an unhighlighted page; the invariant holds |
| Engine.MultiSearch.CollectCandidates | content.js:414-427 | the walker collects exactly the eligible matching leaves, in document order |
| Engine.MultiSearch.UpdateActiveState | content.js:365-377 | the row's spans end with only the one at its index active; other rows and the text are unchanged; an unknown id changes nothing |
| Engine.MultiSearch.HighlightTerm | content.js:408-482 | an empty term changes nothing; otherwise the page is scanned with the row's painter, only that row's spans change, and the row's count and clamped index are stored |
| Engine.MultiSearch.StoreCount | content.js:470-479 | the row with the id, if any, takes the count and the clamped index; nothing else changes |
| Engine.MultiSearch.ClearHighlights | content.js:393-406 | the page is the cleared page, every count is zero, and the invariant holds |
| Engine.MultiSearch.PerformSearch | content.js:382-391 | the page is the cleared page scanned by every active row in order; each active row is rescanned, each other row has count zero; the invariant holds |
| Engine.MultiSearch.HighlightEach | content.js:387-389 | the active rows are highlighted in order over a page without spans |
| Engine.MultiSearch.AddSearchRow | content.js:223-227 | an empty row with a fresh id is appended; the invariant holds |
| Engine.MultiSearch.RemoveRow | content.js:238-242 | the search afterwards is over the registry without that row |
| Engine.MultiSearch.ToggleCase | content.js:247-258 | the search afterwards uses the new case rule; an unknown id changes nothing |
| Engine.MultiSearch.InputTerm | content.js:297-301 | the search afterwards uses the new term with the index reset |
| Engine.MultiSearch.NavigateMatch | content.js:335-363 | no match or an unknown id changes nothing; otherwise the index moves one step with wrap-around, that span becomes the only active one, and it is the span returned |
| Engine.NavigateAgree | content.js:342-377 | moving one row's index inside its spans and marking its spans anew keeps every row's spans in agreement with its count and index |
| Engine.RowLabel | content.js:484-497 | a row whose spans agree with it shows its position and its number of spans, and an empty label when it has none |
| Engine.RowText | content.js:484-497 | the label of a row exists exactly when the registry has a row with the id |
| Engine.RowTextShowsSpans | content.js:484-497 | when the rows and spans agree, the label of a row with spans reads back as its position and its number of spans, and it is empty when the row has none |
| Engine.MultiSearch.CountText | content.js:484-497 | a label exists exactly for a known row |
| Engine.MultiSearch.CountTextShowsSpans | content.js:484-497 | in a valid state the label shows the position and the number of the row's spans on the page |
| Examples.SplitNonOverlapping | content.js:438 | "aa" in "aaa" is found once, leaving "a" |
| Examples.TrailingEmptyPart | content.js:438-460 | a match at the end of a text leaves an empty text node |
| Examples.CaseSensitiveSplit | content.js:438-452 | in "cat CAT" a case-sensitive row splits off "cat" only and counts 1 match |
| Examples.CaseFoldSplit | content.js:438-452 | in "cat CAT" a row without case splits off "cat" and "CAT" and counts 2 matches |
| Examples.ColorConversions | content.js:25-36 | `#ff8000`, `#f80` and the fallback for a name |
| Examples.ContrastYellow | content.js:38-52 | yellow (`#ffff00`) gets black text |
| Examples.ContrastNavy | content.js:38-52 | navy (`#000080`) gets white text |
| Examples.Labels | content.js:489-494 | "0/3" before navigating, "1/3" on the first span, "" without matches |
| Examples.IdReuse | content.js:224-239 | after removing row 1 of rows 0 and 1, the next id is 1 again |

## Left out

- The panel's chrome is not modelled: its markup, styles, dragging, resizing, `init`, `renderRows`, focus and `setTimeout`. The panel appears only as a subtree the scan skips.
- `toggleUI` and the keyboard shortcut are not modelled. Hiding the panel calls `ClearHighlights`, which is modelled.
- `getRandomColor` is not modelled: randomness. The colour is a parameter of the constructor and of `AddSearchRow`.
- The `rgba(...)` string and its alpha are not modelled: a span's style holds the three channels and the text shade.
- The regular-expression engine is replaced by a literal leftmost search. `EscapeThenRead` justifies this: the pattern is always an escaped literal.
- The case-insensitive `i` flag and `toLowerCase` are one abstract per-character fold (`fold`). The model assumes they agree. Unicode special cases where lower-casing changes length are outside it.
- `scrollIntoView` is not modelled: `NavigateMatch` returns the index of the target span instead.
- The count element's text is `CountText`, a function of the state. The DOM element is not kept.
- `Engine.MultiSearch.ClearHighlights` models the combined effect of its per-span `replaceChild`/`normalize` loop, not each step. Each parent of an outermost span has its subtree normalized.
- `Engine.MultiSearch.HighlightTerm` applies all collected replacements together after the fragment loop, not one per iteration. The result is the same because each replacement only touches its own leaf.
- `Engine.MultiSearch.HighlightTerm`: the `!node.parentNode` check is not modelled. Collected leaves are never detached before their turn.
- `Engine.MultiSearch.HighlightTerm` states its span result only when the row had no span before. `performSearch`, the only caller, always clears first.
- `Engine.MultiSearch.ToggleCase` and `Engine.MultiSearch.InputTerm` select the row by id. The source's handlers hold the record itself, and the rendered rows always mirror the registry.
- `Engine.SearchThenClear` is stated for pages whose text nodes are already normalized. On other pages `normalize` also merges text nodes that were never highlighted. The text is kept either way (`Clear.ClearText`).
- `Colors.ContrastColor` uses the integer test `yiq >= 128000` in place of the floating-point `yiq / 1000 >= 128`. The two agree on every integer `yiq`.
- JavaScript strings are sequences of UTF-16 code units; the model's strings are sequences of Unicode scalar values. For text outside the Basic Multilingual Plane, `hex.length`, `split` and the `i` flag's per-unit folding can differ from the model. The colours `getRandomColor` produces are all ASCII.
- `Registry.Decimal` prints every natural number in plain digits. JavaScript switches to exponent notation above 10^21, which no count reaches.
