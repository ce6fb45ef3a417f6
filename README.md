# PDF page reorder tool: a Dafny model of its state

The tool is a single-page React application. The user loads a PDF, picks pages by
clicking their previews or by typing a comma-separated list of page numbers, drags the
picked pages into a new order, and exports a PDF holding those pages in that order.
This project models the state behind that workflow and proves what each event
handler does to it.

- `options.dfy`: the `Option` datatype.
- `jsstring.dfy` (module `JsString`): the JavaScript built-ins the component relies
  on, written out over `seq<char>`:
  - `String.prototype.trim`, with the ECMAScript white-space and line-terminator set;
  - `String.prototype.split` on one character, with its inverse `Join`;
  - `parseInt` without a radix: leading white space, an optional sign, the `0x`/`0X`
    hexadecimal prefix, and the longest digit prefix (`NaN` when there is none).
    `ParseIntDecimal`, `ParseIntHex`, `ParseIntNoDigits` and `ParseIntNoHexDigits`
    together cover every input;
  - `String(n)` for natural numbers.
- `splice.dfy` (module `Splice`): `Array.prototype.indexOf`, and the move done by the
  two `splice` calls, both as a function on sequences and as an in-place method on an
  array.
- `selection.dfy` (module `Selection`): the pure parts of the selection logic: page
  ids, removing an id from the order, and the parse/filter/deduplicate pipeline of
  "select pages by index".
- `app.dfy` (module `AppComponent`): the `App` component as a class. Each `useState`
  hook except `loading` is a field, and each event handler is a method that updates those fields.
  `Valid()` is the invariant every handler keeps:
  - the pages are those of the loaded document;
  - the order lists each selected id exactly once;
  - every selected id names a loaded page.
- `pagelist.dfy` (module `PageList`): the drag-end handler of `PageList`, which
  reorders a fresh copy of the page array.
- `scenarios.dfy` (module `Scenarios`): worked examples, and one session of loading,
  toggling, dragging and exporting, proved from the model's definitions.

The code calls `parseInt` without a radix, which also reads `0x`-prefixed hexadecimal,
so typing `0x2` selects page 2. The model does the same; see `Scenarios.HexToken`.

Integers are unbounded. JavaScript numbers are doubles, but rounding only affects
values above 2^53. Such values are far beyond `pages.length`, and the range filter
rejects them either way.

## Model

| member | source | states |
|---|---|---|
| JsString.LeadingWhiteSpace | src/App.jsx:159 | the length of the white-space run that starts the token: all white space, and followed by a non-white-space character or the end |
| JsString.TrailingWhiteSpace | src/App.jsx:159 | the length of the white-space run that ends the token, with the same maximality |
| JsString.Trim | src/App.jsx:159 | `v.trim()` is a contiguous piece of the token with only white space cut from both sides, and it neither starts nor ends with white space |
| JsString.Split | src/App.jsx:157-158 | `split(",")` gives at least one part, no part holds a comma, and joining the parts with commas gives back the text |
| JsString.SplitJoin | src/App.jsx:157-158 | splitting the comma-join of comma-free parts gives back exactly those parts |
| JsString.SplitNoSeparator | src/App.jsx:157-158 | a text without a comma splits into itself alone |
| JsString.SplitPrefix | src/App.jsx:157-158 | a comma-free head followed by a comma is split off as the first part |
| JsString.DigitValue | src/App.jsx:159 | a hexadecimal digit is worth less than 16, and a decimal digit less than 10 |
| JsString.DigitChar | src/App.jsx:58 | the character `String` writes for a digit value is a decimal digit worth that value |
| JsString.DecimalPrefix | src/App.jsx:159 | `parseInt` reads the longest prefix of decimal digits |
| JsString.HexPrefix | src/App.jsx:159 | after `0x`, `parseInt` reads the longest prefix of hexadecimal digits |
| JsString.NatToString | src/App.jsx:58 | `String(i)` is never empty |
| JsString.NatToStringDigits | src/App.jsx:58 | `String(n)` is made of decimal digits, has no leading zero unless `n` is 0, and reads back as `n` |
| JsString.ParseIntOfString | src/App.jsx:58 | `parseInt(String(n)) == n`: a page id reads back as its page number |
| JsString.DecimalPrefixOfDigits | src/App.jsx:159 | `parseInt` reads the whole of an all-digit string |
| JsString.TrimOfDigits | src/App.jsx:159 | trimming leaves an all-digit string unchanged |
| JsString.TrimPadded | src/App.jsx:159 | trimming a token padded with a space on each side gives back the token |
| JsString.LeadingWhiteSpaceOf | src/App.jsx:159 | white space in front of a token that starts with something else is counted exactly |
| JsString.TrimStartOf | src/App.jsx:159 | the white space in front of a token is dropped and the token is kept |
| JsString.DecimalPrefixOf | src/App.jsx:138 | the decimal digits in front of a non-digit are read in full and no further |
| JsString.HexPrefixOf | src/App.jsx:138 | the hex digits in front of a non-hex-digit are read in full and no further |
| JsString.NoHexMarker | src/App.jsx:138 | a decimal token other than a lone `0` before `x`/`X` does not begin with the hex marker |
| JsString.ParseIntDecimalTrimmed | src/App.jsx:138 | `parseInt` of an optional sign, decimal digits and any non-digit tail is the signed value of those digits |
| JsString.ParseIntDecimal | src/App.jsx:138 | for every input of the form white space, optional `-`/`+`, decimal digits, then anything not starting with a digit (and not `0x`): `parseInt` gives the signed base-10 value of the digits |
| JsString.ParseIntHexTrimmed | src/App.jsx:138 | `parseInt` of an optional sign, `0x`/`0X`, hex digits and any tail is the signed value of those hex digits |
| JsString.ParseIntHex | src/App.jsx:159 | for every input of the form white space, optional sign, `0x`/`0X`, hex digits, then anything not starting with a hex digit: `parseInt` gives the signed base-16 value of the hex digits |
| JsString.ParseIntNoDigits | src/App.jsx:159 | for every input of the form white space, optional sign, then nothing or a non-digit (with no sign, neither white space nor a sign): `parseInt` gives `NaN` |
| JsString.ParseIntNoHexDigits | src/App.jsx:159 | for every input of the form white space, optional sign, `0x`/`0X`, then nothing or a non-hex-digit: `parseInt` gives `NaN` |
| JsString.NatToStringInjective | src/App.jsx:58 | different page numbers get different ids |
| Splice.IndexOf | src/App.jsx:120 | `indexOf` is -1 exactly when the id is absent; otherwise it is the first position of the id |
| Splice.RemoveAt | src/App.jsx:123 | `splice(i, 1)` drops the element at `i` and shifts the rest down by one |
| Splice.InsertAt | src/App.jsx:124 | `splice(i, 0, x)` puts `x` at `i`, and removing it again gives back the list |
| Splice.Move | src/App.jsx:122-124 | the two splices put the dragged element at the target index, and the other elements keep their relative order |
| Splice.MoveInPlace | src/App.jsx:121 | a move onto the element's own index changes nothing, so the early return is only a shortcut |
| Splice.MoveToEnds | src/App.jsx:122-124 | a drop on index 0 moves the element to the front, and a drop on the last index moves it to the end, with the rest in order |
| Splice.MovePermutes | src/App.jsx:122-124 | the move is a permutation: the multiset of elements is unchanged |
| Splice.MoveInverse | src/App.jsx:122-124 | moving back from the target to the source index restores the list |
| Splice.MoveAt | src/App.jsx:122-124 | each position of the result is pinned down: before the target it is the list without the element, at the target it is the element, after it the list without the element shifted up |
| Splice.RemoveInPlace | src/App.jsx:123 | the in-place `splice(i, 1)` leaves the array's first `length - 1` slots equal to `RemoveAt` of its old contents |
| Splice.InsertInPlace | src/App.jsx:124 | the in-place `splice(to, 0, x)` leaves the array equal to `InsertAt` of its old first `length - 1` slots |
| Splice.SpliceMove | src/App.jsx:122-124 | the two in-place splices, run one after the other, leave exactly `Move` of the array's old contents |
| Selection.PageIds | src/App.jsx:50-58 | a document of `n` pages has ids `String(1)` to `String(n)`, in page order |
| Selection.PageIdOf | src/App.jsx:58 | each page number from 1 to the page count has its id among the page ids |
| Selection.PageNumberOfId | src/App.jsx:58 | a page id parses to a page number in range, and that number's id and position are the id itself |
| Selection.Without | src/App.jsx:78 | `filter(id => id !== pageId)` keeps exactly the other ids and adds no duplicates |
| Selection.WithoutIsRemoveAt | src/App.jsx:78 | in an order without duplicates, the filter removes exactly the one position of the id |
| Selection.WithoutAbsent | src/App.jsx:78 | filtering out an absent id changes nothing |
| Selection.ToggleOnOff | src/App.jsx:74-84 | toggling an unselected id on and then off restores the order exactly |
| Selection.ToggleOffOn | src/App.jsx:74-84 | toggling a selected id off and then on keeps the same ids without duplicates, and moves the id to the end behind the others, which keep their order |
| Selection.WithoutKeepsInvariant | src/App.jsx:75-78 | removing an id from the order and the set keeps the order a duplicate-free listing of the set |
| Selection.AppendKeepsInvariant | src/App.jsx:80-81 | appending a new id to the order and the set keeps the order a duplicate-free listing of the set |
| Selection.MoveKeepsInvariant | src/App.jsx:122-125 | a drop keeps the order a duplicate-free listing of the unchanged selection |
| Selection.Dedup | src/App.jsx:162-164 | `[...new Set(ids)]` has no duplicates and holds exactly the ids of the list |
| Selection.DedupOrder | src/App.jsx:164 | a `Set` keeps first-insertion order: the deduplicated ids come in the order of their first occurrence |
| Selection.DedupSnoc | src/App.jsx:162 | adding an id that the `Set` already holds changes nothing; a new id goes last |
| Selection.DedupRepeat | src/App.jsx:162-164 | for any two distinct ids `a` and `b`, `[a, a, b]` deduplicates to `[a, b]` |
| Selection.DedupOfDistinct | src/App.jsx:162-164 | a list without duplicates passes through the `Set` unchanged |
| Selection.ParseEach | src/App.jsx:159 | token `k` becomes `parseInt` of token `k` trimmed |
| Selection.InRange | src/App.jsx:160 | the filter keeps exactly the numbers from 1 to `pages.length`, and drops `NaN` |
| Selection.ToIds | src/App.jsx:162 | `indexes.map(n => String(n))`, one id per kept number |
| Selection.IndexSelection | src/App.jsx:156-164 | the ids chosen by typed text have no duplicates, and each names a loaded page |
| Selection.IndexSelectionMembers | src/App.jsx:157-162 | page `n` is chosen exactly when some token parses to `n` |
| Selection.IndexSelectionSources | src/App.jsx:157-162 | every chosen id is `String(n)` for a page number `n` in range that some token parses to |
| Selection.NoPageNamed | src/App.jsx:161 | nothing is chosen exactly when no token names a page in range |
| Selection.IndexSelectionOrder | src/App.jsx:164 | the chosen ids come in the order of the first token naming each of them |
| Selection.SelectionOfIndexes | src/App.jsx:160-164 | the chosen order is the deduplicated ids of the kept numbers: it is empty exactly when nothing was kept, and it holds the same ids as the set |
| Selection.SelectTypedIds | src/App.jsx:157-164 | typing a comma list of page numbers in range chooses those pages, duplicates dropped, first occurrence first |
| Selection.ParseTokens | src/App.jsx:157-159 | the typed text gives at least one parsed token, even when it is empty |
| Selection.ParseTokensOfJoin | src/App.jsx:157-159 | comma-free tokens joined with commas give one number per token, each the `parseInt` of that token trimmed |
| Selection.ParseTokensOfIds | src/App.jsx:157-159 | a comma list of number strings parses token by token to those numbers |
| Selection.IdToken | src/App.jsx:159 | a page id holds no comma, and trimming and parsing it gives back its page number |
| Selection.InRangeAll | src/App.jsx:160 | the filter keeps every number when all are in range |
| AppComponent.RenderPages | src/App.jsx:50-58 | the load loop pushes page `i` with id `String(i)` and number `i`, once for each page from 1 to `numPages` |
| AppComponent.PageOfId | src/App.jsx:138 | in a loaded document, `parseInt(id) - 1` is the index of the page that has that id |
| AppComponent.IdsOfPages | src/App.jsx:58 | every loaded page's id is a page id, and no two pages share an id |
| AppComponent.ParseSelection | src/App.jsx:156-162 | the number of kept tokens is 0 exactly when nothing is chosen, and the chosen set and order keep the selection invariant |
| AppComponent.PlanPages | src/App.jsx:137-138 | the export loop maps each id of the order to `parseInt(id) - 1`, the index of the loaded page with that id |
| AppComponent.PageIndex | src/App.jsx:138 | `parseInt(id) - 1` is the 0-based index whose page id is `id` |
| AppComponent.PlanEntry | src/App.jsx:138-139 | one id of the order parses to `p + 1`, and `pages[p]` is the page with that id |
| AppComponent.PlanOfOrder | src/App.jsx:137-139 | an index list whose ids spell the order is the export plan of that order |
| AppComponent.App.constructor | src/App.jsx:4-13 | the initial value of every state hook, which satisfies the invariant |
| AppComponent.App.MarkPdfJsLoaded | src/App.jsx:15-23 | once the pdf.js script is available only the loaded flag changes |
| AppComponent.App.HandleFileChange | src/App.jsx:38-72 | the three alerts (pdf.js not ready, not a PDF, processing error) leave the state unchanged; a successful load installs one page per document page and clears the selection and the order |
| AppComponent.App.TogglePageSelection | src/App.jsx:74-84 | a selected id leaves the set and the order; an unselected one joins the set and the end of the order; the invariant is kept |
| AppComponent.App.ProceedToReorder | src/App.jsx:86-89 | refused with nothing changed exactly when nothing is selected; otherwise the reorder view is shown |
| AppComponent.App.BackToSelection | src/App.jsx:91 | only the view switches back to the page grid |
| AppComponent.App.ResetSelection | src/App.jsx:247 | the Reset Selection button empties the set and the order and changes nothing else |
| AppComponent.App.EditPageIndexes | src/App.jsx:214 | typing into the index box changes only the typed text |
| AppComponent.App.SelectPagesByIndex | src/App.jsx:156-165 | succeeds exactly when the typed text names a page; then the set and the order become the named pages, first occurrence first; otherwise nothing changes |
| AppComponent.App.HandleDragStart | src/App.jsx:93-97 | only the dragged id is recorded |
| AppComponent.App.HandleDragEnd | src/App.jsx:99-103 | the dragged id and the highlighted index are both cleared |
| AppComponent.App.HandleDragEnter | src/App.jsx:110-113 | only the highlighted index changes |
| AppComponent.App.HandleDragLeave | src/App.jsx:115 | only the highlighted index is cleared |
| AppComponent.App.HandleDrop | src/App.jsx:117-127 | with no dragged id, or a drop on the dragged id's own index (the guard `DropIsNoOp`, src/App.jsx:119-121), nothing changes; otherwise the order becomes the move of the dragged id to the target index, the highlight is cleared, and the selection is untouched |
| AppComponent.App.ExportPlan | src/App.jsx:129-141 | nothing is exported without a file or with an empty selection; otherwise output page `k` is the loaded page whose id is `order[k]` |
| PageList.HandleDragEnd | src/components/PageList.jsx:8-16 | no destination means no update; otherwise a fresh array holds the pages with the dragged one moved to the destination, and the page list passed in is not modified |
| Scenarios.TypedOrderIsKept | src/App.jsx:156-164 | typing "5,1,3" with five pages selects pages 5, 1, 3 in that order |
| Scenarios.RepeatsCollapse | src/App.jsx:162-164 | typing "1,1,2" selects page 1 once, then page 2 |
| Scenarios.HexToken | src/App.jsx:159 | `parseInt("0x1A")` is 26 |
| Scenarios.TrailingLetters | src/App.jsx:159 | `parseInt("3abc")` is 3 |
| Scenarios.DecimalPoint | src/App.jsx:159 | `parseInt("1.5")` is 1 |
| Scenarios.NotANumber | src/App.jsx:159-160 | `parseInt("abc")` and `parseInt("")` are `NaN` |
| Scenarios.NegativeToken | src/App.jsx:159 | `parseInt("-1")` is -1 |
| Scenarios.TrimmedToken | src/App.jsx:159 | `" 0x2 ".trim()` is `"0x2"` |
| Scenarios.SplitAtCommas | src/App.jsx:157-158 | `" 0x2 ,3abc".split(",")` is `[" 0x2 ", "3abc"]` |
| Scenarios.OutOfRangeSelectsNothing | src/App.jsx:160-161 | typing "0,99" with ten pages names no page, so the selection is left alone |
| Scenarios.SwapByDrop | src/App.jsx:120-124 | dropping the second of two ids on index 0 swaps them |
| Scenarios.PlanOfOneTwo | src/App.jsx:137-139 | exporting the order "1", "2" copies source pages 0 and 1 |
| Scenarios.LoadThreePages | src/App.jsx:15-72 | once pdf.js is ready, loading a three-page PDF gives three pages and an empty selection |
| Scenarios.PickTwoThenOne | src/App.jsx:74-84 | clicking pages 2 and then 1 gives the order "2", "1" |
| Scenarios.DragOneToFront | src/App.jsx:93-127 | dragging "1" onto the first card of "2", "1" gives "1", "2" |
| Scenarios.ToggleDragExport | src/App.jsx:74-141 | a load, a toggle of "2" then "1", and a drop of "1" on the first card give order `["1", "2"]` and export source pages 0 then 1 |

## Left out

- Loading scripts (src/App.jsx:15-36): the pdf.js script is reduced to `MarkPdfJsLoaded`, and the `loadPdfLib` promise is not modelled. Both are network I/O.
- File reading, pdf.js decoding and canvas rendering (src/App.jsx:44-57) are I/O. `HandleFileChange` takes the decoded page count as a parameter, or `None` when decoding or rendering failed. The preview image (`src`) is not modelled.
- `pdfFile` is modelled as the flag `pdfLoaded`. The file bytes go only to pdf-lib.
- The `loading` flag (src/App.jsx:7, 43, 69) is left out. A file change is modelled as one atomic step, and the flag only hides the page grid while a load runs.
- The pdf-lib calls in `exportPdf` (copying pages, saving, the Blob and the download link; src/App.jsx:131-153) are I/O. `ExportPlan` models only which source page goes to each output position.
- Alerts and `console.error` are not modelled as side effects. The alerts at src/App.jsx:39, 41 and 67 are the refused `LoadOutcome` values of `HandleFileChange`, and those at src/App.jsx:87 and 161 are the `ok == false` results of `ProceedToReorder` and `SelectPagesByIndex`; in each the state is unchanged. The script-failure alert (src/App.jsx:24) belongs to the script loading left out above, and the export-failure alert (src/App.jsx:150) to the pdf-lib I/O left out above. `ExportPlan`'s `None` is the silent return at src/App.jsx:130, which raises no alert.
- `handleDragOver` (src/App.jsx:105-108) and the DOM parts of the drag handlers change no state: `preventDefault`, `dataTransfer` and the card opacity.
- JSX rendering, styling, and the `PageList` render loop (src/components/PageList.jsx:18-68) are view code.
- `AppComponent.App.TogglePageSelection` requires the id to be a loaded page's id. The grid only calls it with `page.id` (src/App.jsx:225-229).
- `AppComponent.App.HandleDrop` requires the target index to be a card index and the dragged id to be in the order. Drop targets and drag sources are the cards of `order.map` (src/App.jsx:256-268). With an id missing from the order, `indexOf` would give -1 and `splice(-1, 1)` would remove the last element; the model does not cover that case.
- `PageList.HandleDragEnd` requires the library's source and destination indices to lie within the list.
- JavaScript numbers are modelled as unbounded integers, plus `NaN`. Double rounding above 2^53 and the sign of a negative zero are not modelled; neither can pass the range filter.
