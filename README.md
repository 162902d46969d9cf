# react-spreadsheet core, modelled in Dafny

A model of the logic beneath a React spreadsheet widget:

- **Column labels** (`spreadsheet.dfy`, module `Spreadsheet`). `numberToExcelHeader` turns a 1-based column index into its letter label: 1 → "A", 26 → "Z", 27 → "AA". The model is defined on every integer. It returns `None` where JavaScript returns `undefined`. The function is written with the source's recursion: take the floor quotient of index − 1 by 26, and if it is positive, prefix its label. The `decreases` clause proves that this terminates. Its partner is the decoder `HeaderValue`, which reads a label as a bijective base-26 numeral (A=1 … Z=26). The lemmas prove that decoding a label gives back its index, and that every non-empty string of letters is the label of exactly one index. `numberToExcelHeaderArray` is a method with the source's push loop. It is proved against `HeaderList`, a function built one push at a time. So `HeaderList(n + 1) == HeaderList(n) + [Header(n + 1)]` holds by definition for n ≥ 0.
- **Operator counter** (`formula.dfy`, module `Formula`). `getOperationCount` is modelled in three layers. The scan `/[+-]/g` is modelled as `Matches`, the characters picked out left to right. `String.match` is modelled as `Match`, which returns `None` for JavaScript's `null` when nothing matches; `MatchIsNull` says when that happens in terms of the formula itself. The `found?.length || 0` fallback is modelled as `GetOperationCount`. The lemmas prove four things about the count. It equals the number of '+' plus the number of '-'. It adds up over concatenation. It is zero exactly when neither character occurs. No other character counts.
- **Grid store** (`store.dfy`, module `Store`, records in `types.dfy`). The zustand store is modelled as the class `SpreadsheetStore`, with fields `data` (a matrix of `CellData`) and `activeCell`. The nested `map` of `setColumnWidth` is the pure function `WithColumnWidth`. The in-place write of `setCellValue` is `WithCellValue`. Each setter states the whole new state. The helper functions also state what stays the same: the matrix shape, every other cell, and every other field of the touched cells. `setCellValue` with an undefined value never reads `data[row][column]`, so it never throws. A defined value for a missing cell throws before anything changes.
- **Cell record** (`cell.dfy`, module `CellRecord`). The `Cell` class constructor takes 1-based coordinates and stores them 0-based. It starts the cell empty with the default size. It computes the pixel offsets from the 1-based arguments, so `x == width * (column + 1)` for the stored `column`.

Shared: `wrappers.dfy` (`Option`).

Alongside `SingleLetterHeader`, two edge cases are worth noting. Index 0 reads `chars[-1]` and gives `undefined`. The canvas header loop passes 0 for its first label (src/components/CanvasSpreadsheet.tsx:46). JavaScript's `%` truncates toward zero, so an index such as −25 reads `chars[-0]`, which is "A". `NonPositiveHeaders` shows both cases.

A similar reachable edge case is in the store. The formula bar reads the active cell's value on every render (src/components/FormulaEditor.tsx:24). The active cell starts at (−1, −1), and the arrow keys move it without clamping (src/components/CellEditor.tsx:66-81). A read at such a coordinate throws. `GetCellValue` models the throw as a `TypeError` outcome, and `InitialActiveCellReadThrows` shows the first read.

## Model

| member | source | states |
|---|---|---|
| `Spreadsheet.CharAt` | src/lib/spreadsheet/index.ts:1-28 | `chars[k]` is defined exactly for 0 ≤ k < 26, and then it is an upper-case letter whose digit value is k + 1 |
| `Spreadsheet.CharsTable` | src/lib/spreadsheet/index.ts:1-28 | the table has 26 entries, and entry k is exactly the letter `CharAt(k)` reads |
| `Spreadsheet.TruncMod26` | src/lib/spreadsheet/index.ts:35-38 | JavaScript's `% 26`: same as the mathematical remainder for non-negative operands, in (−26, 0] for negative ones, and zero exactly on multiples of 26 |
| `Spreadsheet.NumberToExcelHeader` | src/lib/spreadsheet/index.ts:30-39 | for index ≥ 1 the label is defined, non-empty and all letters A..Z; for index ≤ 0 it is "A" when index − 1 is a multiple of 26 and undefined otherwise |
| `Spreadsheet.SingleLetterHeader` | src/lib/spreadsheet/index.ts:30-38 | indices 1..26 give the single letter `chars[index − 1]` |
| `Spreadsheet.HeaderRecurrence` | src/lib/spreadsheet/index.ts:31-35 | past 26, the label is the label of (index − 1) div 26 followed by `chars[(index − 1) mod 26]`, and that quotient is in 1..index − 1 |
| `Spreadsheet.HeaderRoundTrip` | src/lib/spreadsheet/index.ts:30-39 | reading a label back as a bijective base-26 numeral gives the index |
| `Spreadsheet.HeaderInjective` | src/lib/spreadsheet/index.ts:30-39 | two positive indices with the same label are equal |
| `Spreadsheet.HeaderOfValue` | src/lib/spreadsheet/index.ts:30-39 | every non-empty letter string has a positive value and is the label of that value, so the labels are exactly the non-empty letter strings |
| `Spreadsheet.KnownHeaders` | src/lib/spreadsheet/index.ts:30-39 | 1 → "A", 26 → "Z", 27 → "AA", 52 → "AZ", 53 → "BA", 703 → "AAA" |
| `Spreadsheet.NonPositiveHeaders` | src/lib/spreadsheet/index.ts:31-38 | index 0 gives undefined; index −25 gives "A" |
| `Spreadsheet.HeaderListAt` | src/lib/spreadsheet/index.ts:41-49 | the first-n label list has max(n, 0) entries, and entry k is the label of column k + 1 |
| `Spreadsheet.NumberToExcelHeaderArray` | src/lib/spreadsheet/index.ts:41-49 | the loop returns the push-by-push list: length max(columnCount, 0), entry k the label of k + 1 |
| `Formula.Matches` | src/lib/formula/index.ts:2-3 | the global scan picks at most |s| characters, all of them '+' or '-' |
| `Formula.MatchIsNull` | src/lib/formula/index.ts:3-5 | `match` returns null if and only if no character of s is '+' or '-'; otherwise it returns one match per '+' or '-' in s |
| `Formula.GetOperationCount` | src/lib/formula/index.ts:1-6 | the count is a natural number no larger than the length of the formula |
| `Formula.MatchesAppend` | src/lib/formula/index.ts:2-3 | the matches of a + b are the matches of a followed by those of b |
| `Formula.OperationCountIsOccurrences` | src/lib/formula/index.ts:2-5 | the count equals the number of '+' characters plus the number of '-' characters |
| `Formula.OperationCountAppend` | src/lib/formula/index.ts:2-5 | count(a + b) = count(a) + count(b) |
| `Formula.OperationCountZero` | src/lib/formula/index.ts:3-5 | the count is 0 if and only if no character is '+' or '-' |
| `Formula.OperationCountOfChar` | src/lib/formula/index.ts:2 | a one-character string counts 1 exactly for '+' and '-'; "*/()" counts 0 |
| `Store.WithCellValue` | src/state/useSpreadsheet.ts:39-43 | the written cell gets the new value with its other fields kept; every other cell is unchanged and the shape is preserved |
| `Store.WithColumnWidth` | src/state/useSpreadsheet.ts:52-65 | cells whose stored `column` equals the argument get the new width and nothing else changes; all other cells are unchanged; the shape is preserved |
| `Store.ResizeIndexedColumn` | src/state/useSpreadsheet.ts:52-65 | when every stored column equals its position, exactly the cells at that position change width |
| `Store.ResizeBySelectedField` | src/state/useSpreadsheet.ts:54 | a cell at position 0 with stored column 1 is not resized by a width change of column 0 |
| `Store.ColumnWidthIdempotent` | src/state/useSpreadsheet.ts:49-70 | setting the same column width twice equals setting it once |
| `Store.ValueAndWidthCommute` | src/state/useSpreadsheet.ts:34-70 | writing a cell value and resizing a column give the same matrix in either order |
| `Store.SpreadsheetStore.constructor` | src/state/useSpreadsheet.ts:21-23 | the store starts with no cells and active cell (−1, −1) |
| `Store.SpreadsheetStore.SetInitialData` | src/state/useSpreadsheet.ts:24-28 | the matrix becomes the given one; the active cell is kept |
| `Store.SpreadsheetStore.GetCellValue` | src/state/useSpreadsheet.ts:29-33 | the read returns the stored value exactly when the cell exists, and throws a TypeError otherwise (the source has no bounds check) |
| `Store.InitialActiveCellReadThrows` | src/state/useSpreadsheet.ts:21-33 | with the initial active cell (−1, −1), reading the active cell's value throws |
| `Store.SpreadsheetStore.SetCellValue` | src/state/useSpreadsheet.ts:34-48 | a defined value for an existing cell is written and reads back; a defined value for a missing cell throws and changes nothing; an undefined value changes nothing and never throws; shape and active cell are kept |
| `Store.SpreadsheetStore.SetColumnWidth` | src/state/useSpreadsheet.ts:49-70 | the matrix becomes its column-resized copy, with the same shape; the active cell is kept |
| `Store.SpreadsheetStore.SetActiveCell` | src/state/useSpreadsheet.ts:71-75 | the active cell becomes exactly (row, column), negatives included; the matrix is kept |
| `CellRecord.Cell.constructor` | src/lib/cell/index.ts:26-42 | a new cell has no formula entities, an empty value and result, and no id; it stores row − 1 and column − 1; it has the default width and height; its offsets are width × column argument and height × row argument |
| `CellRecord.OffsetsIncrease` | src/lib/cell/index.ts:37-41 | with positive default sizes, x grows strictly with the column argument and y with the row argument |

## Left out

- React components, canvas drawing, context menus and stories: rendering and event wiring. They also call store members that the store does not define, such as `setCellData`, `getCell` and `insertNewRowAt`.
- Selection rectangles, fill-drag direction, formula-entity tracking, marker colours and row/column insertion: the modelled files contain no code for them.
- `src/lib/hooks/useFormulaEditor.ts` and the formula editor's commit: they delegate to an external formula parser and read DOM text content.
- `src/lib/dom/index.ts`: DOM queries and a wrapper over `parseInt`.
- zustand's `create`/`set`/`get` and subscriptions: the store is plain class fields.
- Sharing of cell objects between the caller and the store: `setCellValue` writes in place. So a caller that passed the matrix to `setInitialData` also sees the write, and `setColumnWidth` shares its unchanged cells with the old matrix. The model works on values, so it does not capture this aliasing.
- The `FormulaEntity` type is not defined in src/types/index.d.ts, so `Cell` is generic in its entity type.
- `DefaultCellWidth` and `DefaultCellHeight`: src/constants/index.ts does not define them. They are unspecified positive constants.
- JavaScript numbers are 64-bit floats. Indices, widths and offsets are modelled as unbounded integers, and numeric cell values as reals. Non-integer indices, rounding and overflow are not modelled.
- Exceptions: a thrown TypeError is modelled as a returned outcome (`TypeError`, or `thrown` for `setCellValue`). Its propagation through the calling component is not modelled.
