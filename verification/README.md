# Custom table visual: highlighting, row building and the table sorter

This project models the three pieces of logic in a Power BI custom table
visual that do not depend on the host or the DOM:

- **The highlight locator and row renderer** (`src/visual.ts`). `update`
  looks for four columns by their fixed Japanese display names: keyword
  `正規語`, position `文字位置`, length `文字数` and content `文`. It draws one
  header cell per column and one body row per data row, with odd rows
  shaded. In the content cell it replaces the keyword with a styled span,
  but only when `content.slice(position, position + length)` really equals
  the keyword (`splitContentWithCondition`, `joinHighlightText`).
  `updatingBorder`/`addElementBorder` decide which of head and body get
  which border sides for each of the three border sections.
- **The alternate row builder and the view model** (`utils/utilities.ts`).
  `addRow` gives each cell its inner HTML and its `title`.
  `visualTransform` reshapes the data view into `tableRows` and a row-major
  list of data points.
- **The table sorter** (`utils/sort-table.js`). `sortTable(c)` reads the
  rendered table into a grid and sets the header row aside. A new column
  is stably sorted by its tag-stripped text (`cleanString`); the same
  column clicked again is reversed. The header is then put back and the
  grid is written into the cells' inner HTML and title. The module-level
  `cPrev`/`isASCDirection` pair becomes an explicit `SortState` that each
  click takes and returns.

## How JavaScript is modelled

The model carries the JavaScript semantics the code relies on (module
`JsString`).

- `undefined` is `None`.
- `Number(undefined)` and `undefined + n` are NaN (`Num.NaN`).
- `slice` clamps its arguments to the string and treats NaN as 0.
- `indexOf` and `replace` with a string pattern act on the first
  occurrence only.
- Cell values have an abstract type `V`. Their `toString()` and
  `Number(...)` are a `Coercion` supplied by the caller.
- The highlight style function is a parameter, and so is the `'ja'`
  `localeCompare` collation. The collation is assumed to be a total
  preorder (`StableSort.TotalPreorder`), and `Array.prototype.sort` is a
  stable sort under it.
- Calling a method on `undefined` throws. The model makes that an explicit
  outcome:
  - `Page.Aborted` for the renderer;
  - `None` for an `addRow` cell;
  - `SortOutcome.Threw` for the sorter.

Rows with missing cells are modelled as the code handles them:

- **Short rows in the renderer.** When highlighting is on and a row has
  its content cell but lacks its keyword cell, `row[...].toString()` throws
  (src/visual.ts:361); other short rows draw. A missing position or
  length cell passes NaN to the locator (src/visual.ts:362). With a missing
  length cell only the empty keyword passes the gate, and the drawn cell
  then repeats the text before the offset, because the text after the
  keyword is sliced from NaN, that is from 0 (src/visual.ts:458).
- **Sparse rows in the sorter.** Sorting a new column throws in
  `cleanString(undefined)` once two or more data rows are compared and one
  of them lacks the column (utils/sort-table.js:27). A missing cell is
  skipped on write-back, but a present cell that receives a missing entry
  from another row gets the text `"undefined"` (utils/sort-table.js:46-47).
  On a ragged table the write-back therefore does not move whole rows: a
  row moved into a shorter row loses the cells past that row's end, and a
  row moved into a longer one gets `"undefined"` in the cells it lacked
  (utils/sort-table.js:44-48). The sorting and reversing promises are made
  for rectangular tables only; `Samples.RaggedClickLosesCell` shows the loss.
- **Every row is compared.** The throw condition relies on this: any
  correct comparison sort compares every element at least once when there
  are two or more of them.

## Model

| member | source | states |
|---|---|---|
| JsString.Slice | utils/utilities.ts:11 | `slice` yields the characters between the clamped start and the clamped end, and the empty string when they cross |
| JsString.IndexFrom | utils/utilities.ts:27 | the result is the first position at or after `from` where the pattern occurs, and -1 exactly when it occurs nowhere there |
| JsString.ReplaceFirst | utils/utilities.ts:27 | `replace` with a string pattern swaps only the first occurrence for the replacement, and leaves the text unchanged when there is none |
| Highlight.KeywordAt | utils/utilities.ts:10-12 | for numeric arguments the gate holds exactly when the keyword occurs at the clamped offset and either has the claimed length or is cut short by the end of the text |
| Highlight.Split | src/visual.ts:454-462 | there are two parts exactly when the gate holds and none otherwise; with numeric arguments, prefix + keyword + suffix rebuilds the content |
| Highlight.JoinReplacesLocatedKeyword | src/visual.ts:464 | with numeric position and length, joining the split parts around the styled text replaces exactly the occurrence at the clamped offset and nothing else |
| Highlight.NaNOffsetMatchesOnlyEmpty | src/visual.ts:362 | with a missing position cell (NaN) the gate holds only for the empty keyword, and the split is then empty prefix plus whole content |
| Roles.ScanRoles | src/visual.ts:288-324 | each role index is the last column whose display name is that role's label, or -1 when no column has it |
| Roles.RolesDistinct | src/visual.ts:299-318 | no column fills two roles |
| DataView.Usable | src/visual.ts:263-272 | the data view is usable exactly when the first view has a table with rows and columns and carries metadata |
| Render.RenderCell | src/visual.ts:357-369 | a cell throws exactly when it is the content cell of a highlighting row with no keyword cell; every other cell is its raw text; the content cell differs from its raw text only when the gate holds; when the position and length cells are present, it is then the text with exactly the occurrence at the offset replaced |
| Render.MissingLengthRepeatsText | src/visual.ts:454-464 | with the length cell missing, the content cell is its raw text unless the keyword is empty, and then it is the text before the offset, the styled empty keyword, and the whole text again |
| Render.RenderRow | src/visual.ts:357-381 | a row throws exactly when highlighting is on, the row has its content cell and it lacks its keyword cell; otherwise it has one cell per value, each the rendered cell, and the non-content cells are raw |
| Render.DrawBody | src/visual.ts:339-383 | one body row per data row, rendered cell by cell; the first row has the base shade and neighbouring rows never share a shade |
| Render.Paint | src/visual.ts:293-383 | the draw aborts exactly when highlighting is on and some row has its content cell but lacks its keyword cell; otherwise the header holds the column display names in order and the body the rendered, alternately shaded rows |
| Render.Update | src/visual.ts:257-272 | nothing is drawn exactly when the data view is unusable; otherwise the table is painted from its rows and columns |
| Render.FullRowsNeverAbort | src/visual.ts:357-369 | when every row has a value for every column, the draw completes |
| ViewModel.AddRowCell | utils/utilities.ts:14-44 | a cell throws exactly when its value or the keyword value is undefined; the title is always the raw text; only the content column is width-capped; only a highlighted content cell can differ from its raw text, and then the FIRST occurrence of the keyword, at or before the offset, is replaced |
| ViewModel.FirstOccurrenceNoLater | utils/utilities.ts:24-27 | when the gate holds, the keyword occurs, and its first occurrence is no later than the clamped offset |
| ViewModel.AddRowCellAtOffset | src/visual.ts:360-365 | the corrected cell throws when `addRow` does, keeps its title and width cap, and, when the position and length cells are present and the gate holds, replaces exactly the occurrence at the offset |
| ViewModel.FirstOccurrenceAgrees | utils/utilities.ts:27 | when the offset points at the first occurrence, `addRow` and the corrected cell agree |
| ViewModel.AtOffsetMatchesRenderer | src/visual.ts:357-369 | on a row with all values present, the corrected `addRow` cell throws exactly when the renderer's cell does, and otherwise has the same markup |
| ViewModel.AddRow | utils/utilities.ts:14-44 | the row throws exactly when one of its cells does; otherwise there is one cell per value, each the cell markup, each titled with its raw text |
| ViewModel.BuildRow | utils/utilities.ts:83-101 | the inner loop gives the row's value (undefined past its end) and the row's selection id for every column, and appends the row's data points |
| ViewModel.Reshape | utils/utilities.ts:78-103 | the outer loop gives one table row per data row with every column's value and selection id, and the data points of all rows, row after row |
| ViewModel.PointsAt | utils/utilities.ts:83-101 | the data point of row r, column c sits at index r * width + c |
| ViewModel.PointsAreRowMajor | utils/utilities.ts:83-101 | the data points list the whole grid in row-major order, each unselected and carrying its row's selection id |
| ViewModel.VisualTransform | utils/utilities.ts:46-107 | the settings are carried; an unusable data view gives no rows and no points; otherwise the table rows mirror the data rows over all columns and the points list them in row-major order |
| Markup.CleanString | utils/sort-table.js:10-12 | the result is never longer than the input and is made of the input's characters |
| Markup.CleanDropsTag | utils/sort-table.js:10-12 | a tag at the front, `<`, a non-empty run without `>`, then `>`, is deleted whole and cleaning resumes after it |
| Markup.CleanKeepsChar | utils/sort-table.js:10-12 | a first character that opens no tag is kept and cleaning resumes at the next character |
| Markup.TagFreeUnchanged | utils/sort-table.js:10-12 | text without tags, in particular any text without `<`, is returned unchanged |
| Markup.CleanIsTagFree | utils/sort-table.js:10-12 | no tag is left after cleaning |
| Markup.CleanIdempotent | utils/sort-table.js:10-12 | cleaning twice is cleaning once |
| StableSort.Sort | utils/sort-table.js:25-33 | the sorted rows are a permutation of the input |
| StableSort.SortSorted | utils/sort-table.js:25-33 | the keys of the sorted rows ascend under the collation |
| StableSort.SortStable | utils/sort-table.js:25-33 | rows whose keys collate equal keep their relative order |
| StableSort.Reverse | utils/sort-table.js:35 | position i of the result holds position n-1-i of the input |
| StableSort.ReverseMultiset | utils/sort-table.js:35 | reversing is a permutation |
| StableSort.ReverseReverse | utils/sort-table.js:35 | reversing twice gives the rows back |
| SortTable.ReadGrid | utils/sort-table.js:6-19 | the grid has a row per table row and a column per header cell, holding the cell's inner HTML or undefined where the row has no such cell |
| SortTable.Reorder | utils/sort-table.js:23-37 | the data rows are permuted |
| SortTable.Click | utils/sort-table.js:1-51 | a click throws exactly on an empty table, with the state unchanged, or on a new column whose comparator meets a missing cell, with the flag already set ascending and the last column unchanged; otherwise the last column becomes c, the flag is ascending for a new column and flipped for the same one, the flag is returned, the table keeps its shape and header HTML, every existing cell within the header's width gets the arranged entry as HTML and title, and other cells are untouched |
| SortTable.ClickReadBack | utils/sort-table.js:21-49 | on a rectangular table, reading the table back after a click gives the header row as before followed by the reordered data rows |
| SortTable.ClickPermutesRows | utils/sort-table.js:23-37 | on a rectangular table, a completed click permutes the data rows |
| SortTable.NewColumnSortsStably | utils/sort-table.js:23-33 | on a rectangular table, a click on a new column within the header's width completes ascending and leaves the data rows sorted, and stably so, by the column's tag-stripped text |
| SortTable.SameColumnReverses | utils/sort-table.js:34-37 | on a rectangular table, a click on the same column completes, reverses the data rows and flips the flag |
| SortTable.TwoClicksReverse | utils/sort-table.js:23-39 | on a rectangular table, after two clicks on one column within the header's width, the second order is the reverse of the first and the returned flags differ |
| Borders.ElementBordersStyles | src/visual.ts:447-452 | `addElementBorder` styles only its element, and exactly the sides whose flags are set as written, with bottom following `leftBorder` |
| Borders.BordersOnStyles | src/visual.ts:431-443 | each element the switch reaches gets exactly the sides styled as written, and an element it never reaches gets none |
| Borders.UpdatingBorder | src/visual.ts:427-445 | the head is styled unless the section is `value`; the body is styled in every section |
| Borders.StylingOrder | src/visual.ts:431-443 | `value` styles the body; `header` styles the head, then the body; `all` does what `header` does, twice |
| Borders.UpdatingBorderIntended | src/visual.ts:427-452 | each section styles only its own elements, each side by its own flag, each pair once |
| Borders.HeaderSectionBordersBody | src/visual.ts:436-441 | the header section's top border reaches the body as written, but not in the intended definition |
| Borders.BottomFollowsLeft | src/visual.ts:449 | as written, `botBorder` alone draws no bottom border and `leftBorder` alone draws one |
| Borders.AgreeWhenBottomIsLeft | src/visual.ts:431-452 | outside the header section, with the bottom flag equal to the left flag, the written and intended definitions style the same pairs |
| Samples.KeywordAtOffsetIsStyled | src/visual.ts:357-369 | in "the quick fox" with keyword "quick" at 4 for 5, the content cell draws "the ", the styled keyword, " fox"; the other cells draw raw |
| Samples.KeywordElsewhereIsRaw | src/visual.ts:357-369 | the same row with keyword "slow" draws every cell raw |
| Samples.MissingLengthRepeatsPrefix | src/visual.ts:454-464 | for "abc" with the empty keyword at 2 and no length cell, the content cell draws "ab", the styled empty keyword, then "abc" |
| Samples.CleanStripsSpan | utils/sort-table.js:10-12 | "<span>ab</span>c" cleans to "abc" |
| Samples.ClickTwiceOnLetters | utils/sort-table.js:23-51 | data rows b, a, c become a, b, c on the first click, with ascending returned, and c, b, a on the second, with descending returned |
| Samples.RaggedClickLosesCell | utils/sort-table.js:44-48 | on a table with header h0, h1 and rows x and y, z, a repeat click writes y into the one-cell row, losing z, and x, "undefined" into the two-cell row |
| Samples.AddRowStylesEarlierOccurrence | utils/utilities.ts:27 | in "aXa" with keyword "a" at 2 for 1, `addRow` styles the first "a" while the corrected cell styles the one at 2 |

## Left out

- `resizableGrid` and its mouse listeners (src/visual.ts:47-138): DOM event handling and pixel arithmetic.
- Every CSS property, including colours, fonts, padding, grid-line classes and wrapping (src/visual.ts:344-421). Only the row parity and the border decisions are kept.
- Serialisation of markup. Body cells (d3 `.html`, src/visual.ts:366-380) and `addRow`'s `html` are the strings assigned to `innerHTML`. Header cells are the display names set as text (src/visual.ts:322), so a name such as `a<b>` shows literally. Titles are attribute values. The browser's parsing of the HTML strings is not modelled.
- `JSON.parse` of the table configuration (src/visual.ts:164-171): a foreign call whose result the modelled logic does not read.
- `saveConfig`, `parseSettings` and `enumerateObjectInstances` (src/visual.ts:466-495): host-owned settings plumbing with no logic. `src/settings.ts` is not part of this model.
- `src/behaviorHandler.ts`: selection wiring to the host, outside this model.
- The `'ja'` collation. It is a parameter, assumed to be a total preorder.
- `toString()` and `Number(...)` of host values. They are a caller-supplied `Coercion`. A present cell's number is a non-negative whole number, and NaN arises only from a missing cell; a present non-numeric cell such as `Number("x")`, negative and fractional offsets, and `null` cell values are not modelled.
- Text is a sequence of Dafny `char`s, each standing for one UTF-16 code unit. Text with characters outside the Basic Multilingual Plane, which JavaScript's `length`, `slice` and `indexOf` count as two positions, is not modelled.
- ViewModel.AddRowCell: takes the position and length cells to hold numbers, read through the `Coercion`. `addRow` passes the raw values without `Number(...)` (utils/utilities.ts:21-24), so for text cells `index + length` concatenates ("4" + "5" is "45") and the slice ends elsewhere; that case is not modelled, and neither is it for ViewModel.AddRowCellAtOffset.
- `$` patterns in the replacement text of `replace` (utils/utilities.ts:27). The model inserts the styled text literally.
- The partial DOM an aborted draw leaves behind. The model returns `Aborted` without the cells drawn before the throw.
- Selection-id creation (utils/utilities.ts:94-96). It is an opaque function of the row index. The `column`, `format` and `columnOrder` fields, which are never filled, are dropped.
- `addRow`'s `el`, `index` and the d3 data join (utils/utilities.ts:14-17). The model returns the markup for each value of the row.
- Clicks on negative or fractional column indices in `sortTable`. The column is a natural number.
- The three `updatingBorder` calls of one update (src/visual.ts:419-421). Each call is modelled on its own; later calls override earlier ones in CSS, and that is not modelled.

## Findings

| source | as written | input that shows it | evidently intended | confidence | as-written member | corrected member |
|---|---|---|---|---|---|---|
| utils/utilities.ts:27 | once the gate has confirmed the keyword at the offset, `colContent.replace(keyword, styled)` styles the first occurrence of the keyword anywhere in the text | content "aXa", keyword "a", position 2, length 1: the first "a" is styled instead of the one at position 2 | style the occurrence at the offset, as `joinHighlightText` does in src/visual.ts:365 | high, not executed | ViewModel.AddRowCell, Samples.AddRowStylesEarlierOccurrence | ViewModel.AddRowCellAtOffset |
| src/visual.ts:449 | `border-bottom` is applied when `leftBorder` is set; `botBorder` is never read | a section with only `botBorder` set draws no bottom border, and one with only `leftBorder` set draws one | `border-bottom` applied when `botBorder` is set | high, not executed | Borders.UpdatingBorder, Borders.BottomFollowsLeft | Borders.UpdatingBorderIntended |
| src/visual.ts:431-441 | the `switch` cases have no `break`, so `'all'` styles head and body twice and `'header'` falls through to style the body | the header section with `topBorder` set gives the body a top border | `'header'` styles only the head, `'value'` only the body, `'all'` both once | medium, not executed | Borders.UpdatingBorder, Borders.HeaderSectionBordersBody | Borders.UpdatingBorderIntended |
