# MarkText structural editing and main-process helpers, in Dafny

This project models two controllers of MarkText's Muya editor and a set of
helpers from the Electron main process:

- **Line moving.** `moveLineCtrl.js` handles Alt+ArrowUp and Alt+ArrowDown.
  It finds the block under the cursor that can move (a list item, paragraph,
  heading, code block and so on) and swaps it with its previous or next
  sibling. That means updating both the sibling array and the
  `preSibling`/`nextSibling` links.
- **Selection wrapping.** `wrapSelectionCtrl.js` wraps a selection in a
  character pair when the user types an opening quote, bracket or markdown
  delimiter.
- **Main-process helpers.** `src/main/utils/index.js` holds the unique-id
  counter, filename sanitising, the first-line and recommended-title
  extraction from markdown, the key-set comparison of two objects and the
  log-level choice.
- **Heading slugs.** `src/muya/lib/utils/url.js` turns a heading into a
  GitHub-style anchor slug.

Modules:

- `ContentModel` (block_store.dfy) holds the editor's block records in a
  table keyed by block key, alongside the top-level block sequence.
  - A ghost ranking of the keys makes every parent walk finite.
  - `WellLinked` is the invariant that each sibling sequence agrees with the
    `preSibling`/`nextSibling` chain.
  - `Relink` rebuilds that chain from the sequences.
- `MoveLineCtrl` (move_line_ctrl.dfy) is the value-level specification of
  `getMovableBlock`, `swapBlocks`, `moveLineUp`/`moveLineDown` and the key
  test of `handleMoveLineKeydown`. It also holds the lemmas about them.
- `WrapSelectionCtrl` (wrap_selection_ctrl.dfy) is the value-level
  specification of `WRAP_PAIRS`, `shouldWrapSelection`, `wrapSelection` and
  `handleWrapSelectionKeydown`.
- `Muya` (content_state.dfy) is the class `ContentState`. Its fields are the
  block table, the top-level blocks, the cursor, the options and a log of
  render/dispatch notices. Its methods follow the JavaScript step by step,
  including the in-place writes to block records and to the sibling array.
  Each method is proved equal to the specification function above.
- `MainUtils` (main_utils.dfy) covers the helpers in
  `src/main/utils/index.js`. The id counter is a class, and the line-scanning
  loops are methods proved against recursive specifications.
- `Url` (url.dfy) defines `generateGithubSlug`.
- `JsString` (js_string.dfy) holds the JavaScript string operations these
  files use (`trim` with JavaScript's whitespace set, `split`,
  `lastIndexOf`, `replace(/\s+/g, …)`-style run replacement).
- `Wrappers` (wrappers.dfy) declares the `Option` type the other modules share.

## Model

| member | source | states |
|---|---|---|
| ContentModel.GetBlock | src/muya/lib/contentState/moveLineCtrl.js:17-18 | a block is found exactly when the key is present and in the table, and it is that key's record |
| ContentModel.FindIndex | src/muya/lib/contentState/moveLineCtrl.js:86-89 | the first position holding the key, or -1 exactly when the key is absent |
| ContentModel.Closest | src/muya/lib/contentState/moveLineCtrl.js:53-54 | the result is an ancestor-or-self block of the requested type; no result means no block of that type on the way up |
| ContentModel.ClosestNearest | src/muya/lib/contentState/moveLineCtrl.js:53-54 | the block found is the nearest one of that type: every block before it on the way up has another type |
| ContentModel.FindOutMostBlock | src/muya/lib/contentState/moveLineCtrl.js:71 | the last block of the parent chain, which has no parent in the table |
| ContentModel.RelinkIsWellLinked | src/muya/lib/contentState/moveLineCtrl.js:101-120 | rebuilding the sibling links of a structured document from its sequences gives a well-linked document of the same shape |
| ContentModel.WellLinkedUnique | src/muya/lib/contentState/moveLineCtrl.js:101-120 | two well-linked documents with the same sequences and non-link fields are equal, so the links are determined by the sequences |
| ContentModel.RelinkOfWellLinked | src/muya/lib/contentState/moveLineCtrl.js:101-120 | relinking a well-linked document changes nothing |
| MoveLineCtrl.StopAt | src/muya/lib/contentState/moveLineCtrl.js:32-59 | the walk stops at a block exactly when it is an `li`, or a content block whose parent is absent, a list or a blockquote; the block returned is an ancestor, and it differs from the block only when it is the enclosing `li` of a block inside a list; a content block whose parent is a list gives `closest(block, 'li')` when there is one and the block itself otherwise |
| MoveLineCtrl.WalkFirstStop | src/muya/lib/contentState/moveLineCtrl.js:29-71 | the upward walk returns the decision at the first ancestor where the walk stops, and otherwise the outermost block |
| MoveLineCtrl.MovableBlock | src/muya/lib/contentState/moveLineCtrl.js:13-72 | no movable block exactly when the cursor has no start or its block is missing |
| MoveLineCtrl.MovableIsAncestor | src/muya/lib/contentState/moveLineCtrl.js:29-71 | the movable block is an ancestor-or-self of the cursor block and is an `li`, a content block or a top-level block |
| MoveLineCtrl.ExchangedFacts | src/muya/lib/contentState/moveLineCtrl.js:92-93 | in a duplicate-free sibling array, the exchange puts each block at the other's index and leaves every other entry, the members and the absence of duplicates as they were; the order of the pair does not matter |
| MoveLineCtrl.ExchangedTwice | src/muya/lib/contentState/moveLineCtrl.js:92-93 | exchanging the same two entries twice restores a duplicate-free sibling array |
| MoveLineCtrl.LinkSwap | src/muya/lib/contentState/moveLineCtrl.js:96-110 | the link rewrite of the forward branch keeps the set of block keys |
| MoveLineCtrl.LinkSwapEffect | src/muya/lib/contentState/moveLineCtrl.js:96-110 | the forward branch's writes, block by block: the first block gets the second as its previous sibling and the second's old next sibling; the second gets the first's old previous sibling and the first as its next; the outer neighbours are re-pointed at the pair; every other block is unchanged |
| MoveLineCtrl.Swap | src/muya/lib/contentState/moveLineCtrl.js:80-123 | `swapBlocks` succeeds exactly when both blocks are given and both are in the first block's sibling sequence; on failure nothing changes |
| MoveLineCtrl.SwapForward | src/muya/lib/contentState/moveLineCtrl.js:102-110 | when the first block is directly before the second, the swap gives the relinked document with the two entries exchanged |
| MoveLineCtrl.SwapBackward | src/muya/lib/contentState/moveLineCtrl.js:111-119 | when the second block is directly before the first, the swap gives the same document |
| MoveLineCtrl.SwapAdjacent | src/muya/lib/contentState/moveLineCtrl.js:80-123 | swapping adjacent siblings of a well-linked document succeeds and leaves it well linked, in the same state that relinking the exchanged sequences gives |
| MoveLineCtrl.SwapNonAdjacent | src/muya/lib/contentState/moveLineCtrl.js:80-123 | swapping two siblings that are not adjacent still reports success, but it exchanges only the array entries and leaves the document no longer well linked |
| MoveLineCtrl.SwapInverse | src/muya/lib/contentState/moveLineCtrl.js:80-123 | after swapping a block with its next sibling, swapping them back restores the original document |
| MoveLineCtrl.Partner | src/muya/lib/contentState/moveLineCtrl.js:134-135 | a neighbour is found exactly when the block's `preSibling` (moving up) or `nextSibling` (moving down) names a block in the table, and it is that block |
| MoveLineCtrl.Move | src/muya/lib/contentState/moveLineCtrl.js:130-177 | a move that fails leaves the document unchanged |
| MoveLineCtrl.MoveGuards | src/muya/lib/contentState/moveLineCtrl.js:130-177 | on a well-linked document, a move fails exactly when there is no movable block, no neighbour in that direction, or the neighbour has `editable === false` |
| MoveLineCtrl.MoveKeepsWellLinked | src/muya/lib/contentState/moveLineCtrl.js:130-177 | a move, successful or not, never breaks the agreement between the sibling links and the arrays |
| MoveLineCtrl.MoveSucceeds | src/muya/lib/contentState/moveLineCtrl.js:130-177 | a successful move keeps the document well linked, exchanges the block with its neighbour and updates both links in the direction of the move |
| MoveLineCtrl.MoveUpThenDown | src/muya/lib/contentState/moveLineCtrl.js:130-177 | moving a block up and then down restores the original document |
| MoveLineCtrl.MoveKeepsWalk | src/muya/lib/contentState/moveLineCtrl.js:130-177 | a move keeps the parent ranking, the movable block under the cursor and every block's `editable` |
| MoveLineCtrl.MoveLineKey | src/muya/lib/contentState/moveLineCtrl.js:186-204 | a direction is chosen exactly for Alt without Ctrl, Meta or Shift on ArrowUp or ArrowDown; ArrowUp means up and ArrowDown means down |
| WrapSelectionCtrl.CloseOf | src/muya/lib/contentState/wrapSelectionCtrl.js:2-14 | a closing character exists exactly for one-character keys in the pair table, and it is that key's partner |
| WrapSelectionCtrl.WrapPairsExact | src/muya/lib/contentState/wrapSelectionCtrl.js:2-14 | the openers are exactly the brackets, quotes and markdown delimiters; quotes and delimiters close with themselves and brackets do not |
| WrapSelectionCtrl.CloseOfClasses | src/muya/lib/contentState/wrapSelectionCtrl.js:156-158 | a key has a pair exactly when it is a bracket, a quote or a markdown delimiter |
| WrapSelectionCtrl.ClassesDisjoint | src/muya/lib/contentState/wrapSelectionCtrl.js:156-158 | no key is in two of the three classes |
| WrapSelectionCtrl.ShouldWrapSelection | src/muya/lib/contentState/wrapSelectionCtrl.js:24-51 | wrapping is allowed only for an opener with both ends and a real selection |
| WrapSelectionCtrl.ShouldWrapSelectionExact | src/muya/lib/contentState/wrapSelectionCtrl.js:24-51 | wrapping is allowed exactly for an opener, both ends, a non-empty or cross-block selection, and no markdown delimiter in a code line |
| WrapSelectionCtrl.CodeAllowsQuotesAndBrackets | src/muya/lib/contentState/wrapSelectionCtrl.js:41-48 | quotes and brackets over a real selection are wrapped even inside code |
| WrapSelectionCtrl.Substring | src/muya/lib/contentState/wrapSelectionCtrl.js:96-104 | JavaScript `substring`: offsets within the text give the slice between them in either order; an offset past the end counts as the end, so one such offset gives the rest of the text from the other and two give "" |
| WrapSelectionCtrl.WrappedTextSlices | src/muya/lib/contentState/wrapSelectionCtrl.js:95-106 | the new text is the prefix, the opener, the selection, the closer and the suffix, and those three pieces make up the old text |
| WrapSelectionCtrl.WrappedTextShape | src/muya/lib/contentState/wrapSelectionCtrl.js:95-106 | the new text is two characters longer, has the opener and closer around the selection, and removing them gives back the old text |
| WrapSelectionCtrl.WrapSelection | src/muya/lib/contentState/wrapSelectionCtrl.js:60-124 | `wrapSelection` succeeds exactly for an opener, both ends in the same block and that block present; on failure the text and cursor are unchanged |
| WrapSelectionCtrl.WrapSelectionEffect | src/muya/lib/contentState/wrapSelectionCtrl.js:85-114 | only the selected block's text changes, and the caret lands after the closer at the larger offset plus two |
| WrapSelectionCtrl.WrapSelectionDirection | src/muya/lib/contentState/wrapSelectionCtrl.js:86-88 | a backward selection wraps exactly as the forward one does |
| WrapSelectionCtrl.WrapSelectionUndo | src/muya/lib/contentState/wrapSelectionCtrl.js:95-106 | with in-range offsets, removing the inserted pair from the wrapped block gives back its original text |
| WrapSelectionCtrl.WrapKeyGate | src/muya/lib/contentState/wrapSelectionCtrl.js:133-168 | the key is taken only without Ctrl, Meta or Alt, with surrounding not switched off, and when wrapping is allowed |
| WrapSelectionCtrl.WrapKeyGateExact | src/muya/lib/contentState/wrapSelectionCtrl.js:133-168 | the key is taken exactly when those hold and the option for the key's class is truthy |
| WrapSelectionCtrl.HandleWrapKeydown | src/muya/lib/contentState/wrapSelectionCtrl.js:133-175 | a key that is not taken changes nothing; a taken key prevents the default, and the new table, cursor and result are those of `wrapSelection` on that key |
| WrapSelectionCtrl.CrossBlockSwallowed | src/muya/lib/contentState/wrapSelectionCtrl.js:148-174 | a cross-block selection passes the gate, so the default is prevented, yet nothing is wrapped |
| WrapSelectionCtrl.HandledMeansWrapped | src/muya/lib/contentState/wrapSelectionCtrl.js:133-175 | a handled key had an opener and a single-block selection, and the caret lands after the closer |
| Muya.SwapSameTree | src/muya/lib/contentState/moveLineCtrl.js:80-123 | a swap keeps the block keys and every block's parent and type, so the parent ranking still holds |
| Muya.ContentState.GetMovableBlock | src/muya/lib/contentState/moveLineCtrl.js:13-72 | the loop returns the specified movable block |
| Muya.ContentState.LinkPair | src/muya/lib/contentState/moveLineCtrl.js:96-110 | the in-place link writes, with the neighbours captured beforehand, give the specified link rewrite and touch nothing else |
| Muya.ContentState.SwapBlocks | src/muya/lib/contentState/moveLineCtrl.js:80-123 | the in-place swap gives the specified document and result, and keeps the parent ranking |
| Muya.ContentState.MoveLine | src/muya/lib/contentState/moveLineCtrl.js:130-177 | the move gives the specified document and result, keeps a well-linked document well linked, and renders and dispatches a change only on success |
| Muya.ContentState.MoveLineUp | src/muya/lib/contentState/moveLineCtrl.js:130-150 | the same, for the upward move, including keeping the links consistent |
| Muya.ContentState.MoveLineDown | src/muya/lib/contentState/moveLineCtrl.js:157-177 | the same, for the downward move, including keeping the links consistent |
| Muya.ContentState.HandleMoveLineKeydown | src/muya/lib/contentState/moveLineCtrl.js:186-204 | keys other than Alt+ArrowUp/ArrowDown change nothing; those keys prevent the default and perform the move; a well-linked document stays well linked |
| Muya.ContentState.WrapSelection | src/muya/lib/contentState/wrapSelectionCtrl.js:60-124 | the in-place wrap gives the specified table, cursor and result, rendering and dispatching the selection change and the change only on success |
| Muya.ContentState.HandleWrapSelectionKeydown | src/muya/lib/contentState/wrapSelectionCtrl.js:133-175 | the handler gives the specified table, cursor, event and result |
| MainUtils.NatToStringValue | src/main/utils/index.js:6-8 | reading the decimal numeral of a counter value gives the value back |
| MainUtils.IdOfInjective | src/main/utils/index.js:3-8 | two counter values give the same id exactly when they are equal |
| MainUtils.IdGenerator.GetUniqueId | src/main/utils/index.js:3-8 | the id is `mt-` followed by the old counter value, the counter goes up by one, and the id was never issued before |
| MainUtils.ReplaceForbidden | src/main/utils/index.js:24 | every forbidden filename character becomes a space and every other character stays |
| MainUtils.CleanedIsClean | src/main/utils/index.js:23-27 | after the replace, collapse, trim and dot-strip chain, no forbidden character and no two adjacent whitespace characters remain |
| MainUtils.SanitizeIsClean | src/main/utils/index.js:18-40 | a sanitised name has no forbidden character and no two adjacent whitespace characters |
| MainUtils.SanitizeLength | src/main/utils/index.js:18-40 | a sanitised name is at most `maxLength` long, and the empty name gives the empty string |
| MainUtils.SanitizeNoEndDots | src/main/utils/index.js:22-27 | a name that needs no truncation neither starts nor ends with a dot |
| MainUtils.SanitizeWordBoundary | src/main/utils/index.js:30-37 | when the last space of the cut lies past half of `maxLength`, the result ends just before that last space |
| MainUtils.FirstLineOfLinesChoice | src/main/utils/index.js:54-97 | the result is empty exactly when no line survives, and otherwise it is the stripped first surviving line |
| MainUtils.GetFirstLineOfText | src/main/utils/index.js:48-98 | the loop returns the specified first line of text |
| MainUtils.FencedLineIrrelevant | src/main/utils/index.js:58-64 | changing a line inside a fenced code block, other than into a fence, never changes the first line |
| MainUtils.HeaderMatch | src/main/utils/index.js:123-129 | a heading match has a level from 1 to 6, and that level is the number of leading `#` |
| MainUtils.HeaderContent | src/main/utils/index.js:123-129 | on a line without terminators, a heading's content is the rest of the line after the `#` marks, trimmed (empty when the regex backtracks over whitespace only) |
| MainUtils.HeaderMatchTrimmed | src/main/utils/index.js:123 | a trimmed line is a heading exactly when it starts with one to six `#` followed by whitespace and more text |
| MainUtils.BestHeader | src/main/utils/index.js:133-136 | the chosen heading has the lowest level, and it is the first with that level, as a stable sort would give |
| MainUtils.GetRecommendTitleFromMarkdownString | src/main/utils/index.js:102-141 | the loop returns the specified recommended title |
| MainUtils.CollectHeaders | src/main/utils/index.js:110-130 | the loop collects exactly the headings outside fenced code, in order |
| MainUtils.HeaderFound | src/main/utils/index.js:110-130 | every heading line outside fenced code is among the collected headings |
| MainUtils.FencedLineIgnoredByTitle | src/main/utils/index.js:110-130 | changing a line inside a fenced code block, other than into a fence, never changes the title |
| MainUtils.TitleIsClean | src/main/utils/index.js:102-141 | the title has no forbidden filename character, no doubled whitespace and at most 100 characters |
| MainUtils.SortKeysSorted | src/main/utils/index.js:159-160 | sorting the keys orders them character by character, by code point |
| MainUtils.SortKeys | src/main/utils/index.js:159-160 | sorting keeps the multiset of keys |
| MainUtils.HasSameKeysMultiset | src/main/utils/index.js:158-162 | the two sorted key lists match exactly when the keys agree as multisets |
| MainUtils.HasSameKeysSets | src/main/utils/index.js:158-162 | for objects' distinct keys, the answer is true exactly when the key sets are equal |
| MainUtils.LogLevelCases | src/main/utils/index.js:164-177 | a non-positive or non-number setting gives `debug` in development and `info` otherwise; 1 gives `verbose`, 2 gives `debug`, any other positive number gives `silly` |
| MainUtils.LogLevelRange | src/main/utils/index.js:164-177 | the level is one of `info`, `debug`, `verbose`, `silly` |
| Url.StripOthersChars | src/muya/lib/utils/url.js:34 | only word characters, whitespace and hyphens of the text remain |
| Url.SlugAlphabet | src/muya/lib/utils/url.js:30-37 | a slug consists of lower-case ASCII letters, digits, `_` and `-` |
| Url.SlugNoSpace | src/muya/lib/utils/url.js:30-37 | a slug contains no whitespace |
| Url.SlugNoDoubleHyphen | src/muya/lib/utils/url.js:35-36 | a slug never has two hyphens in a row |
| Url.SlugIgnoresPadding | src/muya/lib/utils/url.js:32 | whitespace around the heading does not change its slug |
| Url.SlugOfSlugShaped | src/muya/lib/utils/url.js:30-37 | a text of slug characters with no doubled hyphen is its own slug |
| Url.SlugIdempotent | src/muya/lib/utils/url.js:30-37 | slugging a slug gives the same slug |
| JsString.Trim | src/muya/lib/utils/url.js:32 | the trimmed text is a slice of the text that starts after the leading whitespace and neither starts nor ends with whitespace |
| JsString.TrimExact | src/muya/lib/utils/url.js:32 | an all-whitespace text trims to ""; any other text keeps everything between its leading and its trailing whitespace run, so together with `Trim`'s contract the result is fixed |
| JsString.TrimPadding | src/muya/lib/utils/url.js:32 | trimming ignores whitespace added on either side |
| JsString.SplitJoin | src/main/utils/index.js:51 | joining the split lines with the separator gives back the text |
| JsString.Split | src/main/utils/index.js:51 | there is at least one line, and no line contains the separator |
| JsString.LastIndexOf | src/main/utils/index.js:33 | the index holds the character and no later position does, or it is -1 |
| JsString.ReplaceRunsNoAdjacent | src/muya/lib/utils/url.js:35-36 | after replacing runs, no two matching characters are adjacent |
| JsString.ReplaceRunsChars | src/muya/lib/utils/url.js:35-36 | each character of the result is the replacement or a non-matching character of the text |

## Left out

- The documented example in `generateGithubSlug`'s comment is left out. `"API & Usage Examples!"` gives `"api-usage-examples"`, but evaluating that literal through the recursive string functions is beyond what the verifier can unfold. The general lemmas about `Url.GenerateGithubSlug` stand in its place.
- Url.ToLower: lower-cases ASCII letters only, whereas JavaScript's `toLowerCase` also folds other scripts. `\w` is ASCII in JavaScript, so this affects only letters that the next step deletes anyway, and the few that fold into ASCII, such as the Kelvin sign.
- `partialRender`, `muya.dispatchChange` and `muya.dispatchSelectionChange` are recorded as `Notice` entries on `ContentState.notices`. Rendering and event delivery are not modelled.
- `event.preventDefault()` is a `defaultPrevented` flag on the returned event.
- The markdown-formatting regex chain of `getFirstLineOfText` (src/main/utils/index.js:78-90) is a parameter `strip`. Regular-expression replacement is not modelled. The lines that are skipped (lines 67-75) are modelled exactly.
- Cursor offsets are `nat`. A negative offset cannot arise from the editor. Clamping of offsets beyond the text in `substring` is modelled.
- `sanitizeFilename`'s `maxLength` is a `nat`. `DefaultMaxLength` is 100.
- MainUtils.SanitizeNoEndDots: covers only names that need no truncation. The truncated cut `substring(0, maxLength).trim()` can end in a dot again (for example `"aaaa. bbbbbbbb"` with `maxLength` 5 gives `"aaaa."`), and the code does not promise otherwise.
- `hasSameKeys` compares `JSON.stringify` of the sorted key arrays. This is modelled as sequence equality, which is the same for arrays of strings. `Object.keys` is a parameter: each object's list of distinct own keys. `KeyLe` compares keys character by character, by code point. JavaScript's default sort compares UTF-16 code units. The two orders differ only for keys holding characters outside the Basic Multilingual Plane.
- Strings are sequences of Unicode scalar values, while JavaScript strings are sequences of UTF-16 code units. A character outside the Basic Multilingual Plane is one element here and two units in JavaScript. So lengths, offsets, `substring` cuts and sort order agree with JavaScript only for text inside the Basic Multilingual Plane. For example, `sanitizeFilename`'s length test and truncation, and `wrapSelection`'s DOM offsets, differ on emoji.
- The `id` counter is an unbounded `nat`. JavaScript numbers lose integer precision above 2^53, which a running editor never reaches.
- `sanitizeFilename` and the two markdown functions treat a missing or `null` argument as the empty string. The model takes strings only.
- `getPath` (src/main/utils/index.js:151-156) is left out. It only forwards to Electron's `app.getPath`, or throws for `userData`.
- `sanitizeHyperlink` (src/muya/lib/utils/url.js:5-22) is left out. It depends on DOMPurify's attribute check, which is not part of this model.
- `getLogLevel` reads `global.MARKTEXT_DEBUG_VERBOSE` and `process.env.NODE_ENV`. Both are parameters. JavaScript values are `JsValue`, with numbers as reals plus `NaN` and `Infinity`; the sign of zero is not modelled.
- `getBlock`, `getParent`, `closest`, `findOutMostBlock` and `findIndex` live in Muya files that are not part of this model. Here they are lookups over the block table and sibling sequences. `closest` is taken to include the block itself.
- The block objects that the JavaScript mutates in place are records in a table keyed by block key. An object captured before a write (such as `block1Prev`) and later mutated is modelled by re-reading its key. Two distinct objects with the same key are not modelled.
- When the two blocks are not adjacent siblings, `swapBlocks` reports success after exchanging only the array entries, and the links no longer match the array. The model follows the code (`MoveLineCtrl.SwapNonAdjacent`); the two movers only ever call it on adjacent siblings.
- `handleWrapSelectionKeydown` prevents the default for a selection spanning two blocks and then fails to wrap it, so the typed key is swallowed. The model follows the code (`WrapSelectionCtrl.CrossBlockSwallowed`).
- WrapSelectionCtrl.CloseOf: looks up only the listed pairs. A property inherited from `Object.prototype` (such as `toString`) would also be truthy in the JavaScript, but no `KeyboardEvent.key` value names one.
- Concurrency and the DOM are not modelled.
